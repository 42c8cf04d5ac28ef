/** Weighted compliance scores of a device, of a fleet, and of a fleet over time. */
module Scoring {
  import opened Common
  import opened Rounding
  import opened Sums
  import Text

  datatype Finding = Finding(control: Option<string>, severity: string)

  const CRITICAL := 40
  const HIGH := 20
  const MEDIUM := 10
  const LOW := 5

  predicate IsCatalog(m: map<string, int>) { m.Keys != {} && forall k :: k in m ==> m[k] >= LOW }

  /** The generic bundle is one. */
  lemma GenericBundleIsCatalog()
    ensures IsCatalog(CONTROL_WEIGHTS)
  {
    assert "CIS-NET-1.1.1" in CONTROL_WEIGHTS.Keys;
  }

  /** A bundle's controls with their weights. */
  type Catalog = m: map<string, int> | IsCatalog(m) ghost witness (GenericBundleIsCatalog(); CONTROL_WEIGHTS)

  /** Every control of the generic bundle with the weight of its severity. */
  const CONTROL_WEIGHTS: map<string, int> := map[
    "CIS-NET-1.1.1" := HIGH, "CIS-NET-1.1.2" := CRITICAL, "CIS-NET-1.1.3" := HIGH, "CIS-NET-1.2.1" := HIGH,
    "CIS-NET-1.2.2" := CRITICAL, "CIS-NET-1.3.1" := CRITICAL, "CIS-NET-1.4.1" := MEDIUM, "CIS-NET-1.5.1" := HIGH,
    "CIS-NET-1.6.1" := LOW, "CIS-NET-1.7.1" := MEDIUM, "CIS-NET-1.8.1" := MEDIUM]

  /** A severity that is not known counts as MEDIUM. */
  function ScoreFinding(f: Finding): (w: int)
    ensures w >= LOW
  {
    var s := Text.Upper(f.severity);
    if s == "CRITICAL" then CRITICAL else if s == "HIGH" then HIGH else if s == "LOW" then LOW else MEDIUM
  }

  predicate Counts(f: Finding) { f.control.Some? && f.control.value != "" }

  /** The failed controls; the last finding of a control sets its weight. */
  function Failed(findings: seq<Finding>): (failed: map<string, int>)
    ensures forall k :: k in failed ==> failed[k] >= LOW
  {
    if findings == [] then map[]
    else
      var before, last := findings[..|findings| - 1], findings[|findings| - 1];
      assert findings == before + [last];
      if Counts(last) then Failed(before)[last.control.value := ScoreFinding(last)] else Failed(before)
  }

  /** A control failed exactly if some finding names it. */
  lemma {:induction false} FailedExactly(findings: seq<Finding>, k: string)
    ensures k in Failed(findings) <==> exists f :: f in findings && Counts(f) && f.control.value == k
  {
    if findings == [] {
    } else {
      FailedExactly(findings[..|findings| - 1], k);
      assert findings == findings[..|findings| - 1] + [findings[|findings| - 1]];
    }
  }

  /** The catalogue, and the failed controls outside it at their own weight. */
  function Universe(c: Catalog, failed: map<string, int>): map<string, int> { failed + c }

  ghost function TotalWeight(c: Catalog, findings: seq<Finding>): int {
    Total(Universe(c, Failed(findings)))
  }

  ghost function PassedWeight(c: Catalog, findings: seq<Finding>): int {
    Total(Universe(c, Failed(findings)) - Failed(findings).Keys)
  }

  /** Passed weight over total weight, as a whole percentage. */
  ghost function ComplianceScore(c: Catalog, findings: seq<Finding>): int {
    WeightsAreProper(c, findings);
    Percent(PassedWeight(c, findings), TotalWeight(c, findings))
  }

  lemma WeightsAreProper(c: Catalog, findings: seq<Finding>)
    ensures 0 <= PassedWeight(c, findings) <= TotalWeight(c, findings)
    ensures TotalWeight(c, findings) > 0
  {
    var failed := Failed(findings);
    var u := Universe(c, failed);
    UniverseIsPositive(c, failed);
    TotalOfPart(u, failed.Keys);
    var k :| k in c;
    TotalRemove(u, k);
    TotalNonNegative(u - {k});
  }

  lemma UniverseIsPositive(c: Catalog, failed: map<string, int>)
    requires forall k :: k in failed ==> failed[k] >= LOW
    ensures forall k :: k in Universe(c, failed) ==> Universe(c, failed)[k] >= LOW
  {
  }

  // ---------------------------------------------------------------- computing it

  /** Sum a dictionary, skipping some keys, entry by entry. */
  method SumExcept(m: map<string, int>, skip: set<string>) returns (sum: int)
    ensures sum == Total(m - skip)
  {
    sum := 0;
    var todo := m.Keys;
    ghost var done: map<string, int> := map[];
    while todo != {}
      invariant todo <= m.Keys
      invariant done == m - skip - todo && sum == Total(done)
      decreases todo
    {
      var k :| k in todo;
      todo := todo - {k};
      if k !in skip {
        TotalInsert(done, k, m[k]);
        sum, done := sum + m[k], done[k := m[k]];
      }
    }
    assert done == m - skip;
  }

  method CollectFailed(findings: seq<Finding>) returns (failed: map<string, int>)
    ensures failed == Failed(findings)
  {
    failed := map[];
    for i := 0 to |findings|
      invariant failed == Failed(findings[..i])
    {
      assert findings[..i + 1][..i] == findings[..i];
      if Counts(findings[i]) {
        failed := failed[findings[i].control.value := ScoreFinding(findings[i])];
      }
    }
    assert findings[..|findings|] == findings;
  }

  /** setdefault, for every failed control. */
  method BuildUniverse(c: Catalog, failed: map<string, int>) returns (universe: map<string, int>)
    ensures universe == Universe(c, failed)
  {
    universe := c;
    var todo := failed.Keys;
    while todo != {}
      invariant todo <= failed.Keys
      invariant universe == Universe(c, failed - todo)
      decreases todo
    {
      var k :| k in todo;
      if k !in universe { universe := universe[k := failed[k]]; }
      todo := todo - {k};
    }
    assert failed - {} == failed;
  }

  /** The weights of one device. */
  method Weigh(c: Catalog, findings: seq<Finding>) returns (total: int, passed: int)
    ensures total == TotalWeight(c, findings) && passed == PassedWeight(c, findings)
  {
    var failed := CollectFailed(findings);
    var universe := BuildUniverse(c, failed);
    total := SumExcept(universe, {});
    assert universe - {} == universe;
    passed := SumExcept(universe, failed.Keys);
  }

  method Score(c: Catalog, findings: seq<Finding>) returns (score: int)
    ensures score == ComplianceScore(c, findings)
  {
    var total, passed := Weigh(c, findings);
    WeightsAreProper(c, findings);
    return Percent(passed, total);
  }

  // ---------------------------------------------------------------------- fleet

  type Fleet = map<string, seq<Finding>>

  /** What a measure of one device comes to on each device of the fleet. */
  ghost function Each(measure: seq<Finding> -> int, fleet: Fleet): map<string, int> {
    map r | r in fleet :: measure(fleet[r])
  }

  ghost function Totals(c: Catalog, fleet: Fleet): map<string, int> { Each(f => TotalWeight(c, f), fleet) }
  ghost function Passes(c: Catalog, fleet: Fleet): map<string, int> { Each(f => PassedWeight(c, f), fleet) }

  ghost function FleetScore(c: Catalog, fleet: Fleet): int {
    if Total(Totals(c, fleet)) > 0 then Percent(Total(Passes(c, fleet)), Total(Totals(c, fleet))) else 100
  }

  method ScoreFleet(c: Catalog, fleet: Fleet) returns (score: int)
    ensures score == FleetScore(c, fleet)
  {
    ghost var w, v := f => TotalWeight(c, f), f => PassedWeight(c, f);
    var total, passed := WeighFleet(c, fleet, w, v);
    FleetTotalIsNonNegative(c, fleet);
    return if total != 0 then Percent(passed, total) else 100;
  }

  ghost predicate Measures(c: Catalog, w: seq<Finding> -> int, v: seq<Finding> -> int) {
    forall f {:trigger TotalWeight(c, f)} {:trigger PassedWeight(c, f)} :: w(f) == TotalWeight(c, f) && v(f) == PassedWeight(c, f)
  }

  method WeighDevice(c: Catalog, findings: seq<Finding>, ghost w: seq<Finding> -> int, ghost v: seq<Finding> -> int)
    returns (total: int, passed: int)
    requires Measures(c, w, v)
    ensures total == w(findings) && passed == v(findings)
  {
    total, passed := Weigh(c, findings);
  }

  /** The running totals over every device. */
  method WeighFleet(c: Catalog, fleet: Fleet, ghost w: seq<Finding> -> int, ghost v: seq<Finding> -> int)
    returns (total: int, passed: int)
    requires Measures(c, w, v)
    ensures total == Total(Each(w, fleet)) && passed == Total(Each(v, fleet))
  {
    total, passed := 0, 0;
    var todo := fleet.Keys;
    ghost var seen: Fleet := map[];
    while todo != {}
      invariant todo <= fleet.Keys && seen == fleet - todo
      invariant total == Total(Each(w, seen)) && passed == Total(Each(v, seen))
      decreases todo
    {
      var r :| r in todo;
      var t, p := WeighDevice(c, fleet[r], w, v);
      OneDevice(w, seen, r, fleet[r]);
      OneDevice(v, seen, r, fleet[r]);
      seen := seen[r := fleet[r]];
      total, passed, todo := total + t, passed + p, todo - {r};
    }
    assert seen == fleet;
  }

  lemma OneDevice(measure: seq<Finding> -> int, fleet: Fleet, r: string, findings: seq<Finding>)
    requires r !in fleet
    ensures Total(Each(measure, fleet[r := findings])) == Total(Each(measure, fleet)) + measure(findings)
  {
    assert Each(measure, fleet[r := findings]) == Each(measure, fleet)[r := measure(findings)];
    TotalInsert(Each(measure, fleet), r, measure(findings));
  }

  lemma FleetTotalIsNonNegative(c: Catalog, fleet: Fleet)
    ensures Total(Totals(c, fleet)) >= 0
    ensures fleet.Keys != {} ==> Total(Totals(c, fleet)) > 0
  {
    forall r | r in fleet ensures Totals(c, fleet)[r] > 0 { WeightsAreProper(c, fleet[r]); }
    TotalNonNegative(Totals(c, fleet));
    if r :| r in fleet {
      TotalRemove(Totals(c, fleet), r);
      TotalNonNegative(Totals(c, fleet) - {r});
    }
  }

  // ---------------------------------------------------------------- main results

  /** A device score is a percentage. */
  lemma ScoreInRange(c: Catalog, findings: seq<Finding>)
    ensures 0 <= ComplianceScore(c, findings) <= 100
  {
    WeightsAreProper(c, findings);
    PercentInRange(PassedWeight(c, findings), TotalWeight(c, findings));
  }

  /** Failing one more control never raises the score. */
  lemma OneMoreFailureNeverHelps(c: Catalog, findings: seq<Finding>, f: Finding)
    requires Counts(f) ==> f.control.value !in Failed(findings)
    ensures ComplianceScore(c, findings + [f]) <= ComplianceScore(c, findings)
  {
    var failed := Failed(findings);
    assert (findings + [f])[..|findings|] == findings;
    WeightsAreProper(c, findings);
    WeightsAreProper(c, findings + [f]);
    if Counts(f) {
      var k, w := f.control.value, ScoreFinding(f);
      assert Failed(findings + [f]) == failed[k := w];
      MoreFailed(c, failed, k, w);
      var t, p := TotalWeight(c, findings), PassedWeight(c, findings);
      var t', p' := TotalWeight(c, findings + [f]), PassedWeight(c, findings + [f]);
      CrossProduct(p', t', p, t);
      PercentIsMonotone(p', t', p, t);
    }
  }

  lemma MoreFailed(c: Catalog, failed: map<string, int>, k: string, w: int)
    requires k !in failed && w >= LOW && forall j :: j in failed ==> failed[j] >= LOW
    ensures var u, u' := Universe(c, failed), Universe(c, failed[k := w]);
            Total(u') >= Total(u) && Total(u' - failed[k := w].Keys) <= Total(u - failed.Keys)
  {
    var u, u' := Universe(c, failed), Universe(c, failed[k := w]);
    if k in c {
      assert u' == u;
      UniverseIsPositive(c, failed);
      assert u - failed[k := w].Keys == (u - failed.Keys) - {k};
      TotalOfPart(u - failed.Keys, {k});
    } else {
      assert u' == u[k := w];
      TotalInsert(u, k, w);
      assert u' - failed[k := w].Keys == u - failed.Keys;
    }
  }

  lemma CrossProduct(p: int, t: int, q: int, u: int)
    requires 0 <= p <= q && t >= u > 0
    ensures p * u <= q * t
  {
    Times(p, q, u);
    if q > 0 { Times(u, t, q); }
  }

  /** The rounded fleet score lies between two devices' scores, and so between the
    * smallest and the largest of them. */
  lemma FleetLiesBetweenDevices(c: Catalog, fleet: Fleet)
    requires fleet.Keys != {}
    ensures exists r :: r in fleet && ComplianceScore(c, fleet[r]) <= FleetScore(c, fleet)
    ensures exists r :: r in fleet && FleetScore(c, fleet) <= ComplianceScore(c, fleet[r])
  {
    var t, p := Totals(c, fleet), Passes(c, fleet);
    forall r | r in fleet ensures t[r] > 0 { WeightsAreProper(c, fleet[r]); }
    FleetTotalIsNonNegative(c, fleet);
    var least := Extreme(p, t, 1);
    LeastIsBelow(p, t, least);
    assert ComplianceScore(c, fleet[least]) == Percent(p[least], t[least]);
    var most := Extreme(p, t, -1);
    MostIsAbove(p, t, most);
    assert ComplianceScore(c, fleet[most]) == Percent(p[most], t[most]);
  }

  ghost predicate Weights(p: map<string, int>, t: map<string, int>) {
    p.Keys == t.Keys && forall r :: r in t ==> t[r] > 0
  }

  lemma LeastIsBelow(p: map<string, int>, t: map<string, int>, r: string)
    requires Weights(p, t) && r in t && Total(t) > 0
    requires forall s :: s in t ==> p[r] * t[s] <= p[s] * t[r]
    ensures Percent(p[r], t[r]) <= Percent(Total(p), Total(t))
  {
    forall s | s in t ensures p[r] * t[s] <= t[r] * p[s] { Swap(t[r], p[s]); }
    TotalsKeepRatio(p, t, p[r], t[r]);
    Swap(t[r], Total(p));
    PercentIsMonotone(p[r], t[r], Total(p), Total(t));
  }

  lemma MostIsAbove(p: map<string, int>, t: map<string, int>, r: string)
    requires Weights(p, t) && r in t && Total(t) > 0
    requires forall s :: s in t ==> p[s] * t[r] <= p[r] * t[s]
    ensures Percent(Total(p), Total(t)) <= Percent(p[r], t[r])
  {
    forall s | s in t ensures t[r] * p[s] <= p[r] * t[s] { Swap(t[r], p[s]); }
    TotalsKeepRatio(t, p, t[r], p[r]);
    Swap(t[r], Total(p));
    PercentIsMonotone(Total(p), Total(t), p[r], t[r]);
  }

  lemma Swap(x: int, y: int)
    ensures x * y == y * x
  {
  }

  /** The key of least (sign 1) or greatest (sign -1) ratio. */
  lemma {:induction false} Extreme(p: map<string, int>, t: map<string, int>, sign: int) returns (r: string)
    requires Weights(p, t) && t.Keys != {} && (sign == 1 || sign == -1)
    ensures r in t
    ensures forall s :: s in t ==> sign * (p[r] * t[s]) <= sign * (p[s] * t[r])
    decreases |t|
  {
    var k :| k in t;
    var t', p' := t - {k}, p - {k};
    assert t'[k := t[k]] == t;
    if t'.Keys == {} {
      r := k;
    } else {
      r := Extreme(p', t', sign);
      if sign * (p[k] * t[r]) < sign * (p[r] * t[k]) {
        forall s | s in t' ensures sign * (p[k] * t[s]) <= sign * (p[s] * t[k]) {
          RatioTransitive(sign, p[k], t[k], p[r], t[r], p[s], t[s]);
        }
        r := k;
      }
    }
  }

  /** q/u is before p/t and p/t is before x/y. */
  lemma RatioTransitive(sign: int, q: int, u: int, p: int, t: int, x: int, y: int)
    requires sign == 1 || sign == -1
    requires u > 0 && t > 0 && y > 0
    requires sign * (q * t) <= sign * (p * u)
    requires sign * (p * y) <= sign * (x * t)
    ensures sign * (q * y) <= sign * (x * u)
  {
    var a, b := sign * q, sign * p;
    var c := sign * x;
    assert a * t <= b * u && b * y <= c * t by {
      assert sign * (q * t) == a * t && sign * (p * u) == b * u && sign * (p * y) == b * y && sign * (x * t) == c * t;
    }
    Chain(a, u, b, t, c, y);
    assert sign * (q * y) == a * y && sign * (x * u) == c * u;
  }

  lemma Chain(a: int, u: int, b: int, t: int, c: int, y: int)
    requires u > 0 && t > 0 && y > 0
    requires a * t <= b * u && b * y <= c * t
    ensures a * y <= c * u
  {
    Times(a * t, b * u, y);
    Times(b * y, c * t, u);
    assert a * y * t == a * t * y && b * u * y == b * y * u && c * u * t == c * t * u;
    if a * y > c * u { TimesStrict(c * u, a * y, t); }
  }

  lemma Times(x: int, y: int, z: int)
    requires x <= y && z > 0
    ensures x * z <= y * z
  {
  }

  lemma TimesStrict(x: int, y: int, z: int)
    requires x < y && z > 0
    ensures x * z < y * z
  {
  }
}
