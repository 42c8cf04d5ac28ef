/** The fleet score over time, one point per recorded evaluation. */
module Trend {
  import opened Common
  import opened Scoring
  import opened Sorting

  datatype Evaluation = Evaluation(run: string, at: int, findings: seq<Finding>)
  datatype Point = Point(at: int, score: int)

  const When: Evaluation -> int := (e: Evaluation) => e.at

  /** Every run's latest snapshot, the dictionary the loop overwrites. */
  function Snapshots(es: seq<Evaluation>): Fleet {
    if es == [] then map[]
    else
      var e := es[|es| - 1];
      Snapshots(es[..|es| - 1])[e.run := e.findings]
  }

  ghost function Points(measure: Fleet -> int, es: seq<Evaluation>): (points: seq<Point>)
    ensures |points| == |es|
  {
    if es == [] then []
    else Points(measure, es[..|es| - 1]) + [Point(es[|es| - 1].at, measure(Snapshots(es)))]
  }

  /** Evaluations come in any order; they are sorted by time first. */
  method ScoreTrend(c: Catalog, es: seq<Evaluation>) returns (points: seq<Point>)
    ensures points == Points(fleet => FleetScore(c, fleet), SortBy(es, When))
  {
    ghost var measure := fleet => FleetScore(c, fleet);
    points := ScoreSorted(c, SortBy(es, When), measure);
  }

  ghost predicate IsScore(c: Catalog, measure: Fleet -> int) {
    forall fleet {:trigger FleetScore(c, fleet)} :: measure(fleet) == FleetScore(c, fleet)
  }

  method ScoreSorted(c: Catalog, es: seq<Evaluation>, ghost measure: Fleet -> int) returns (points: seq<Point>)
    requires IsScore(c, measure)
    ensures points == Points(measure, es)
  {
    var latest: Fleet := map[];
    points := [];
    for i := 0 to |es|
      invariant latest == Snapshots(es[..i]) && points == Points(measure, es[..i])
    {
      assert es[..i + 1][..i] == es[..i];
      latest := latest[es[i].run := es[i].findings];
      var score := ScoreAs(c, latest, measure);
      points := points + [Point(es[i].at, score)];
    }
    assert es[..|es|] == es;
  }

  method ScoreAs(c: Catalog, fleet: Fleet, ghost measure: Fleet -> int) returns (score: int)
    requires IsScore(c, measure)
    ensures score == measure(fleet)
  {
    score := ScoreFleet(c, fleet);
  }

  // ----------------------------------------------------------------- main result

  /** The x-th evaluation counts by the time the y-th is drawn: it is older, or as old and
    * not behind it in the history. */
  predicate NotAfter(es: seq<Evaluation>, x: int, y: int)
    requires 0 <= x < |es| && 0 <= y < |es|
  {
    es[x].at < es[y].at || (es[x].at == es[y].at && x <= y)
  }

  ghost predicate IsLatest(es: seq<Evaluation>, x: int, y: int)
    requires 0 <= y < |es|
  {
    && 0 <= x < |es| && NotAfter(es, x, y)
    && forall z :: 0 <= z < |es| && es[z].run == es[x].run && NotAfter(es, z, y) ==> NotAfter(es, z, x)
  }

  /** The fleet when the y-th evaluation is drawn, from the history as it came. */
  ghost function FleetSoFar(es: seq<Evaluation>, y: int): Fleet
    requires 0 <= y < |es|
  {
    map x | 0 <= x < |es| && IsLatest(es, x, y) :: es[x].run := es[x].findings
  }

  function AtOf(es: seq<Evaluation>): int -> int {
    x => if 0 <= x < |es| then es[x].at else 0
  }

  /** The positions of the history in the order they are drawn. */
  function DrawingOrder(es: seq<Evaluation>): (order: seq<int>)
    ensures |order| == |es|
  {
    SortBy(UpTo(|es|), AtOf(es))
  }

  lemma DrawingOrderIsStable(es: seq<Evaluation>)
    ensures forall x :: x in DrawingOrder(es) <==> 0 <= x < |es|
    ensures forall i, j :: 0 <= i < |es| && 0 <= j < |es| ==>
              0 <= DrawingOrder(es)[i] < |es| && 0 <= DrawingOrder(es)[j] < |es|
              && (NotAfter(es, DrawingOrder(es)[i], DrawingOrder(es)[j]) <==> i <= j)
    ensures forall i :: 0 <= i < |es| ==> 0 <= DrawingOrder(es)[i] < |es| && SortBy(es, When)[i] == es[DrawingOrder(es)[i]]
  {
    SortIsStable(|es|, AtOf(es));
    SortedInOrder(es);
    StableMeans(es, DrawingOrder(es));
  }

  function AtIndex(es: seq<Evaluation>): int -> Evaluation {
    x => if 0 <= x < |es| then es[x] else Evaluation("", 0, [])
  }

  lemma SortedInOrder(es: seq<Evaluation>)
    ensures SortBy(es, When) == Mapped(DrawingOrder(es), AtIndex(es))
  {
    SortMaps(UpTo(|es|), AtIndex(es), When, AtOf(es));
    assert Mapped(UpTo(|es|), AtIndex(es)) == es;
  }

  lemma StableMeans(es: seq<Evaluation>, order: seq<int>)
    requires |order| == |es| && StablyOrdered(order, AtOf(es)) && forall x :: x in order <==> 0 <= x < |es|
    ensures forall i :: 0 <= i < |es| ==> 0 <= order[i] < |es|
    ensures forall i, j :: 0 <= i < |es| && 0 <= j < |es| ==>
              0 <= order[i] < |es| && 0 <= order[j] < |es| && (NotAfter(es, order[i], order[j]) <==> i <= j)
  {
    forall i | 0 <= i < |es| ensures 0 <= order[i] < |es| { assert order[i] in order; }
    forall i, j | 0 <= i < |es| && 0 <= j < |es| ensures NotAfter(es, order[i], order[j]) <==> i <= j {
      OneStays(es, order, i, j);
    }
  }

  lemma OneStays(es: seq<Evaluation>, order: seq<int>, i: nat, j: nat)
    requires StablyOrdered(order, AtOf(es)) && i < |order| && j < |order|
    requires 0 <= order[i] < |es| && 0 <= order[j] < |es|
    ensures NotAfter(es, order[i], order[j]) <==> i <= j
  {
    if i < j {
      assert GoesBefore(order[i], order[j], AtOf(es));
    } else if j < i {
      assert GoesBefore(order[j], order[i], AtOf(es));
    }
  }

  /** Every trend point is the score of the fleet recomputed from the unsorted history, from
    * the evaluations not after it in time and then in position. */
  lemma TrendIsRecomputed(measure: Fleet -> int, es: seq<Evaluation>, i: nat)
    requires i < |es|
    ensures var y := DrawingOrder(es)[i];
            0 <= y < |es| && Points(measure, SortBy(es, When))[i] == Point(es[y].at, measure(FleetSoFar(es, y)))
  {
    DrawingOrderIsStable(es);
    PointAt(measure, SortBy(es, When), i);
    SnapshotsAreSoFar(es, i);
  }

  lemma {:induction false} PointAt(measure: Fleet -> int, es: seq<Evaluation>, i: nat)
    requires i < |es|
    ensures Points(measure, es)[i] == Point(es[i].at, measure(Snapshots(es[..i + 1])))
    decreases |es|
  {
    if i == |es| - 1 {
      assert es[..i + 1] == es;
    } else {
      var before := es[..|es| - 1];
      assert before[..i + 1] == es[..i + 1];
      PointAt(measure, before, i);
    }
  }

  /** A snapshot is the findings of the run's last evaluation. */
  ghost predicate LastWrites(es: seq<Evaluation>, j: int) {
    0 <= j < |es| && forall l :: j < l < |es| ==> es[l].run != es[j].run
  }

  ghost predicate WritesFor(es: seq<Evaluation>, j: int, run: string) { LastWrites(es, j) && es[j].run == run }

  lemma LastWritesStep(es: seq<Evaluation>, j: int)
    requires es != []
    ensures var n := |es| - 1;
            LastWrites(es, j) <==> j == n || (LastWrites(es[..n], j) && es[n].run != es[j].run)
  {
    assert forall l :: 0 <= l < |es| - 1 ==> es[l] == es[..|es| - 1][l];
  }

  /** Every snapshot was written by a last evaluation of its run. */
  lemma {:induction false} SnapshotIsWritten(es: seq<Evaluation>, run: string)
    requires run in Snapshots(es)
    ensures exists j :: WritesFor(es, j, run)
  {
    var n := |es| - 1;
    if es[n].run == run {
      LastWritesStep(es, n);
      assert WritesFor(es, n, run);
    } else {
      SnapshotIsWritten(es[..n], run);
      var j :| WritesFor(es[..n], j, run);
      LastWritesStep(es, j);
      assert WritesFor(es, j, run);
    }
  }

  /** And every last evaluation of its run wrote the snapshot. */
  lemma {:induction false} WrittenIsSnapshot(es: seq<Evaluation>, j: int)
    requires LastWrites(es, j)
    ensures es[j].run in Snapshots(es) && Snapshots(es)[es[j].run] == es[j].findings
  {
    var n := |es| - 1;
    LastWritesStep(es, j);
    if j < n { WrittenIsSnapshot(es[..n], j); }
  }

  lemma PositionOf(es: seq<Evaluation>, z: int) returns (l: nat)
    requires 0 <= z < |es|
    ensures l < |es| && DrawingOrder(es)[l] == z && SortBy(es, When)[l] == es[z]
  {
    DrawingOrderIsStable(es);
    assert z in DrawingOrder(es);
    l :| 0 <= l < |es| && DrawingOrder(es)[l] == z;
  }

  /** Nothing of the run is drawn between its last write and the i-th evaluation. */
  lemma NoneBetween(es: seq<Evaluation>, i: nat, j: int, z: int)
    requires i < |es| && LastWrites(SortBy(es, When)[..i + 1], j)
    requires 0 <= DrawingOrder(es)[i] < |es| && 0 <= DrawingOrder(es)[j] < |es|
    requires 0 <= z < |es| && es[z].run == es[DrawingOrder(es)[j]].run && NotAfter(es, z, DrawingOrder(es)[i])
    ensures NotAfter(es, z, DrawingOrder(es)[j])
  {
    var l := PositionOf(es, z);
    DrawingOrderIsStable(es);
    assert l <= i;
    assert SortBy(es, When)[..i + 1][l].run == SortBy(es, When)[..i + 1][j].run;
  }

  lemma LastIsLatest(es: seq<Evaluation>, i: nat, j: int)
    requires i < |es| && LastWrites(SortBy(es, When)[..i + 1], j)
    ensures 0 <= DrawingOrder(es)[i] < |es| && IsLatest(es, DrawingOrder(es)[j], DrawingOrder(es)[i])
  {
    DrawingOrderIsStable(es);
    assert DrawingOrder(es)[i] in DrawingOrder(es) && DrawingOrder(es)[j] in DrawingOrder(es);
    forall z | 0 <= z < |es| && es[z].run == es[DrawingOrder(es)[j]].run && NotAfter(es, z, DrawingOrder(es)[i])
      ensures NotAfter(es, z, DrawingOrder(es)[j])
    {
      NoneBetween(es, i, j, z);
    }
  }

  lemma LatestIsLast(es: seq<Evaluation>, i: nat, j: nat)
    requires i < |es| && j < |es| && 0 <= DrawingOrder(es)[i] < |es|
    requires IsLatest(es, DrawingOrder(es)[j], DrawingOrder(es)[i])
    ensures LastWrites(SortBy(es, When)[..i + 1], j)
  {
    var order, drawn := DrawingOrder(es), SortBy(es, When)[..i + 1];
    DrawingOrderIsStable(es);
    forall l | j < l <= i ensures drawn[l].run != drawn[j].run {
      assert !NotAfter(es, order[l], order[j]) && NotAfter(es, order[l], order[i]);
    }
  }

  lemma SnapshotCounts(es: seq<Evaluation>, i: nat, run: string)
    requires i < |es| && 0 <= DrawingOrder(es)[i] < |es|
    requires run in Snapshots(SortBy(es, When)[..i + 1])
    ensures exists x :: 0 <= x < |es| && IsLatest(es, x, DrawingOrder(es)[i]) && es[x].run == run
                        && es[x].findings == Snapshots(SortBy(es, When)[..i + 1])[run]
  {
    var order, drawn := DrawingOrder(es), SortBy(es, When)[..i + 1];
    SnapshotIsWritten(drawn, run);
    var j :| WritesFor(drawn, j, run);
    WrittenIsSnapshot(drawn, j);
    LastIsLatest(es, i, j);
    DrawingOrderIsStable(es);
    assert es[order[j]] == drawn[j];
  }

  lemma CountsAsSnapshot(es: seq<Evaluation>, i: nat, x: int)
    requires i < |es| && 0 <= DrawingOrder(es)[i] < |es| && IsLatest(es, x, DrawingOrder(es)[i])
    ensures es[x].run in Snapshots(SortBy(es, When)[..i + 1])
  {
    var order, drawn := DrawingOrder(es), SortBy(es, When)[..i + 1];
    DrawingOrderIsStable(es);
    assert x in order;
    var j :| 0 <= j < |es| && order[j] == x;
    LatestIsLast(es, i, j);
    WrittenIsSnapshot(drawn, j);
    assert drawn[j] == es[x];
  }

  ghost predicate CountsWith(es: seq<Evaluation>, y: int, run: string, findings: seq<Finding>)
    requires 0 <= y < |es|
  {
    exists x :: 0 <= x < |es| && IsLatest(es, x, y) && es[x].run == run && es[x].findings == findings
  }

  lemma FleetIsSoFar(fleet: Fleet, es: seq<Evaluation>, y: int)
    requires 0 <= y < |es|
    requires forall run :: run in fleet ==> CountsWith(es, y, run, fleet[run])
    requires forall x :: 0 <= x < |es| && IsLatest(es, x, y) ==> es[x].run in fleet
    ensures fleet == FleetSoFar(es, y)
  {
    forall run | run in fleet ensures run in FleetSoFar(es, y) && FleetSoFar(es, y)[run] == fleet[run] {
      var x :| 0 <= x < |es| && IsLatest(es, x, y) && es[x].run == run && es[x].findings == fleet[run];
    }
  }

  lemma SnapshotsAreSoFar(es: seq<Evaluation>, i: nat)
    requires i < |es| && 0 <= DrawingOrder(es)[i] < |es|
    ensures Snapshots(SortBy(es, When)[..i + 1]) == FleetSoFar(es, DrawingOrder(es)[i])
  {
    var snapshots, y := Snapshots(SortBy(es, When)[..i + 1]), DrawingOrder(es)[i];
    forall run | run in snapshots ensures CountsWith(es, y, run, snapshots[run]) { SnapshotCounts(es, i, run); }
    forall x | 0 <= x < |es| && IsLatest(es, x, y) ensures es[x].run in snapshots { CountsAsSnapshot(es, i, x); }
    FleetIsSoFar(snapshots, es, y);
  }

  // --------------------------------------------------------------- complete moments

  predicate Concerns(e: Evaluation, run: string, t: int) { e.run == run && e.at <= t }

  /** The newest evaluation of a run up to a moment, wherever it stands in the history. */
  function LatestOf(es: seq<Evaluation>, run: string, t: int): Option<Evaluation> {
    Newest(es, e => Concerns(e, run, t), When)
  }

  /** The fleet as it stood at a moment: the newest snapshot of every run evaluated by then. */
  function FleetAsOf(es: seq<Evaluation>, t: int): Fleet {
    map e | e in es && e.at <= t && LatestOf(es, e.run, t).Some? :: e.run := LatestOf(es, e.run, t).value.findings
  }

  /** The last point of a moment is the score of the fleet as it stood at that moment. */
  lemma CompleteMoments(measure: Fleet -> int, es: seq<Evaluation>, i: nat)
    requires i < |es|
    requires i + 1 < |es| ==> SortBy(es, When)[i].at < SortBy(es, When)[i + 1].at
    ensures var p := Points(measure, SortBy(es, When))[i];
            p.at == SortBy(es, When)[i].at && p.score == measure(FleetAsOf(es, p.at))
  {
    var sorted := SortBy(es, When);
    SortByOrders(es, When);
    PointAt(measure, sorted, i);
    SnapshotsAreAsOf(es, i);
  }

  lemma SnapshotsAreAsOf(es: seq<Evaluation>, i: nat)
    requires i < |es|
    requires i + 1 < |es| ==> SortBy(es, When)[i].at < SortBy(es, When)[i + 1].at
    ensures Snapshots(SortBy(es, When)[..i + 1]) == FleetAsOf(es, SortBy(es, When)[i].at)
  {
    var sorted := SortBy(es, When);
    var t := sorted[i].at;
    SortByOrders(es, When);
    EndsItsMoment(sorted, i);
    forall run ensures SnapshotIs(Snapshots(sorted[..i + 1]), run, LatestOf(es, run, t)) {
      SortingKeepsNewest(es, e => Concerns(e, run, t), When);
      LaterOnesDoNotCount(sorted, i + 1, run, t);
      SnapshotsAreNewest(sorted[..i + 1], run, t);
    }
    SameFleet(Snapshots(sorted[..i + 1]), es, t);
  }

  ghost predicate SnapshotIs(fleet: Fleet, run: string, e: Option<Evaluation>) {
    (run in fleet <==> e.Some?) && (run in fleet ==> fleet[run] == e.value.findings)
  }

  ghost predicate AllBy(es: seq<Evaluation>, t: int) { forall e :: e in es ==> e.at <= t }

  lemma EndsItsMoment(sorted: seq<Evaluation>, i: nat)
    requires Ordered(sorted, When) && i < |sorted|
    requires i + 1 < |sorted| ==> sorted[i].at < sorted[i + 1].at
    ensures Ordered(sorted[..i + 1], When) && AllBy(sorted[..i + 1], sorted[i].at)
    ensures forall j :: i < j < |sorted| ==> sorted[j].at > sorted[i].at
  {
    forall e | e in sorted[..i + 1] ensures e.at <= sorted[i].at {
      var j :| 0 <= j < i + 1 && sorted[j] == e;
      assert When(sorted[j]) <= When(sorted[i]);
    }
    forall j | i < j < |sorted| ensures sorted[j].at > sorted[i].at {
      assert When(sorted[i + 1]) <= When(sorted[j]);
    }
  }

  lemma {:induction false} LaterOnesDoNotCount(es: seq<Evaluation>, n: nat, run: string, t: int)
    requires n <= |es| && forall j :: n <= j < |es| ==> es[j].at > t
    ensures LatestOf(es[..n], run, t) == LatestOf(es, run, t)
    decreases |es|
  {
    if n == |es| {
      assert es[..n] == es;
    } else {
      var before := es[..|es| - 1];
      assert before[..n] == es[..n];
      LaterOnesDoNotCount(before, n, run, t);
    }
  }

  /** On an ordered history the last write is the newest. */
  lemma {:induction false} SnapshotsAreNewest(es: seq<Evaluation>, run: string, t: int)
    requires Ordered(es, When) && AllBy(es, t)
    ensures SnapshotIs(Snapshots(es), run, LatestOf(es, run, t))
  {
    if es == [] {
    } else {
      var before, x := es[..|es| - 1], es[|es| - 1];
      assert es == before + [x];
      SnapshotsAreNewest(before, run, t);
      NoneIsLater(es, LatestOf(before, run, t), When);
      assert LatestOf(es, run, t) == if run == x.run then Some(x) else LatestOf(before, run, t);
    }
  }

  lemma SameFleet(fleet: Fleet, es: seq<Evaluation>, t: int)
    requires forall run :: SnapshotIs(fleet, run, LatestOf(es, run, t))
    ensures fleet == FleetAsOf(es, t)
  {
    forall run ensures run in FleetAsOf(es, t) <==> run in fleet {
      assert SnapshotIs(fleet, run, LatestOf(es, run, t));
      var b := LatestOf(es, run, t);
      if b.Some? {
        assert b.value in es && Concerns(b.value, run, t);
      }
    }
    forall run | run in fleet ensures fleet[run] == FleetAsOf(es, t)[run] {
      assert SnapshotIs(fleet, run, LatestOf(es, run, t));
    }
  }
}
