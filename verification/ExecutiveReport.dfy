/** Violations found, resolved and still open, derived from the ledger and the current findings. */
module ExecutiveReport {
  import opened Ledger
  import opened FindingStore
  import opened DetectionLedger
  import opened Mttr
  import MttrLaws

  datatype Violations = Violations(found: nat, resolved: nat, stillOpen: int)

  function DetectionsIn(events: seq<Event>): nat {
    if events == [] then 0
    else DetectionsIn(events[..|events| - 1]) + if events[|events| - 1].kind == Detected then 1 else 0
  }

  function ResolvedIn(events: seq<Event>, open: set<Pair>): nat {
    if events == [] then 0
    else
      var e := events[|events| - 1];
      ResolvedIn(events[..|events| - 1], open) + if e.kind == Detected && e.about !in open then 1 else 0
  }

  /** The findings of the runs whose evaluation has finished. */
  function FindingsByRun(db: Db): map<string, seq<Report>> {
    map run | run in db.runs && (db.runs[run] == Evaluated || db.runs[run] == Complete) ::
      if run in db.findings then db.findings[run] else []
  }

  function OpenPairs(current: map<string, seq<Report>>): set<Pair> {
    set run, p | run in current && p in Failing(run, current[run]) :: p
  }

  method CollectOpen(current: map<string, seq<Report>>) returns (open: set<Pair>)
    ensures open == OpenPairs(current)
  {
    open := {};
    var todo := current.Keys;
    while todo != {}
      invariant todo <= current.Keys
      invariant open == OpenPairs(current - todo)
      decreases todo
    {
      var run :| run in todo;
      assert current - (todo - {run}) == (current - todo)[run := current[run]];
      OneMoreRun(current - todo, run, current[run]);
      open, todo := open + Failing(run, current[run]), todo - {run};
    }
    assert current - {} == current;
  }

  lemma OneMoreRun(m: map<string, seq<Report>>, run: string, fs: seq<Report>)
    requires run !in m
    ensures OpenPairs(m[run := fs]) == OpenPairs(m) + Failing(run, fs)
  {
    var m' := m[run := fs];
    forall p | p in OpenPairs(m) + Failing(run, fs) ensures p in OpenPairs(m') {
      if p in Failing(run, fs) {
        assert run in m' && p in Failing(run, m'[run]);
      } else {
        var r :| r in m && p in Failing(r, m[r]);
        assert r in m' && p in Failing(r, m'[r]);
      }
    }
  }

  method CountViolations(events: seq<Event>, current: map<string, seq<Report>>) returns (v: Violations)
    ensures v.found == DetectionsIn(events) && v.resolved == ResolvedIn(events, OpenPairs(current))
    ensures v.stillOpen == v.found - v.resolved
  {
    var open := CollectOpen(current);
    var found, resolved := 0, 0;
    for i := 0 to |events|
      invariant found == DetectionsIn(events[..i]) && resolved == ResolvedIn(events[..i], open)
    {
      assert events[..i + 1][..i] == events[..i];
      if events[i].kind == Detected {
        found := found + 1;
        if events[i].about !in open { resolved := resolved + 1; }
      }
    }
    assert events[..|events|] == events;
    v := Violations(found, resolved, found - resolved);
  }

  ghost predicate CountsPairs(events: seq<Event>, open: set<Pair>) {
    && DetectionsIn(events) == |DetectedPairs(events)|
    && ResolvedIn(events, open) == |DetectedPairs(events) - open|
  }

  /** On a ledger that detects each pair once, counting events is counting pairs. */
  lemma {:induction false} EventsCountPairs(events: seq<Event>, open: set<Pair>)
    requires DetectedOnce(events)
    ensures CountsPairs(events, open)
  {
    if events == [] {
    } else {
      var before, e := events[..|events| - 1], events[|events| - 1];
      assert events == before + [e];
      LastIsNew(before, e);
      EventsCountPairs(before, open);
      OneMoreEvent(before, e, open);
    }
  }

  lemma OneMoreEvent(before: seq<Event>, e: Event, open: set<Pair>)
    requires CountsPairs(before, open)
    requires e.kind == Detected ==> e.about !in DetectedPairs(before)
    requires DetectedPairs(before + [e]) == DetectedPairs(before) + if e.kind == Detected then {e.about} else {}
    ensures CountsPairs(before + [e], open)
  {
    assert (before + [e])[..|before|] == before;
    if e.kind == Detected { OneMorePair(DetectedPairs(before), e.about, open); }
  }

  lemma OneMorePair(d: set<Pair>, p: Pair, open: set<Pair>)
    requires p !in d
    ensures |d + {p}| == |d| + 1
    ensures |(d + {p}) - open| == |d - open| + if p in open then 0 else 1
  {
    assert (d + {p}) - open == if p in open then d - open else (d - open) + {p};
  }

  lemma LastIsNew(before: seq<Event>, e: Event)
    requires DetectedOnce(before + [e])
    ensures DetectedOnce(before)
    ensures e.kind == Detected ==> e.about !in DetectedPairs(before)
    ensures DetectedPairs(before + [e]) == DetectedPairs(before) + if e.kind == Detected then {e.about} else {}
  {
    var events := before + [e];
    forall x | x in before && x.kind == Detected && e.kind == Detected ensures x.about != e.about {
      var i :| 0 <= i < |before| && before[i] == x;
      assert events[i] == x && events[|before|] == e;
    }
    forall i, j | 0 <= i < j < |before| && before[i].kind == Detected && before[j].kind == Detected
      ensures before[i].about != before[j].about
    {
      assert events[i] == before[i] && events[j] == before[j];
    }
  }

  // ---------------------------------------------------------------------- main results

  /** After any steps: found counts the pairs ever reported, still open those of them that
    * fail now in a finished run, and resolved the rest. */
  lemma CountsAreTrue(steps: seq<Step>)
    ensures var db, ever := After(steps), EverReported(steps);
            var current := FindingsByRun(db);
            && DetectionsIn(db.ledger) == |ever|
            && ResolvedIn(db.ledger, OpenPairs(current)) == |ever - FailingIn(db, current.Keys)|
            && DetectionsIn(db.ledger) - ResolvedIn(db.ledger, OpenPairs(current)) == |FailingIn(db, current.Keys)|
  {
    var db, ever := After(steps), EverReported(steps);
    var current := FindingsByRun(db);
    LedgerIsExact(steps);
    EventsCountPairs(db.ledger, OpenPairs(current));
    OpenAreFailing(db);
    FailingIsReported(db, current.Keys, ever);
    PartOf(FailingIn(db, current.Keys), ever);
  }

  lemma FailingIsReported(db: Db, runs: set<string>, ever: set<Pair>)
    requires RowsAreReported(db, ever)
    ensures FailingIn(db, runs) <= ever
  {
  }

  lemma PartOf(a: set<Pair>, b: set<Pair>)
    requires a <= b
    ensures |b| - |b - a| == |a|
  {
    assert b == a + (b - a);
  }

  lemma OpenAreFailing(db: Db)
    ensures OpenPairs(FindingsByRun(db)) == FailingIn(db, FindingsByRun(db).Keys)
  {
  }

  /** No pair fails in a run that has left the finished states after its evaluation. */
  ghost predicate NothingHidden(db: Db) {
    forall run :: run in db.findings && run !in FindingsByRun(db) ==> Failing(run, db.findings[run]) == {}
  }

  /** Still open is the number of pairs failing anywhere exactly when nothing is hidden. */
  lemma AllAreCounted(db: Db)
    ensures |FailingIn(db, FindingsByRun(db).Keys)| == |FailingIn(db, db.findings.Keys)| <==> NothingHidden(db)
  {
    var some, all := FailingIn(db, FindingsByRun(db).Keys), FailingIn(db, db.findings.Keys);
    assert some <= all;
    if NothingHidden(db) {
      assert all <= some;
      assert all == some;
    }
    if |some| == |all| {
      SubsetOfSameSize(some, all);
      forall run | run in db.findings && run !in FindingsByRun(db) ensures Failing(run, db.findings[run]) == {} {
        assert forall p :: p in some ==> p.run in FindingsByRun(db);
        assert forall p :: p in Failing(run, db.findings[run]) ==> p.run == run && p in all;
      }
    }
  }

  lemma SubsetOfSameSize(a: set<Pair>, b: set<Pair>)
    requires a <= b && |a| == |b|
    ensures a == b
  {
    assert b == a + (b - a);
  }

  /** The remediation times account for every pair ever reported, in whatever order the
    * ledger is read. */
  lemma RemediationTimesAreComplete(steps: seq<Step>, events: seq<Event>, now: int)
    requires multiset(events) == multiset(After(steps).ledger)
    ensures var s := SummaryOf(Outcomes(events, now), PairsOf(events));
            && s.byTier[Critical].sampleSize + s.byTier[High].sampleSize + s.byTier[Medium].sampleSize
               + s.byTier[Low].sampleSize + |s.open| == |EverReported(steps)|
            && MttrLaws.SameReport(SummaryOf(Outcomes(After(steps).ledger, now), PairsOf(After(steps).ledger)), s)
  {
    var ledger := After(steps).ledger;
    LedgerIsExact(steps);
    MttrLaws.OnceIsEnough(ledger);
    MttrLaws.OrderOfEventsIsIrrelevant(ledger, events, now);
    MttrLaws.EveryDetectionIsCounted(events, now);
    MttrLaws.SameElements(ledger, events);
    assert DetectedPairs(events) == DetectedPairs(ledger);
  }
}
