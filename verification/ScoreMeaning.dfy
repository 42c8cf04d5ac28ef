/** What a compliance score says, in whole numbers. */
module ScoreMeaning {
  import opened Common
  import opened Rounding
  import opened Scoring
  import opened Sums
  import Text

  /** A device's score is the whole percentage nearest to the weight it passed. */
  lemma ScoreIsNearest(c: Catalog, findings: seq<Finding>)
    ensures IsNearest(ComplianceScore(c, findings), PassedWeight(c, findings), TotalWeight(c, findings))
  {
    WeightsAreProper(c, findings);
    PercentIsNearest(PassedWeight(c, findings), TotalWeight(c, findings));
  }

  /** The fleet's is the one nearest to what its devices passed together, and 100 without any. */
  lemma FleetScoreIsNearest(c: Catalog, fleet: Fleet)
    ensures if fleet == map[] then FleetScore(c, fleet) == 100
            else IsNearest(FleetScore(c, fleet), Total(Passes(c, fleet)), Total(Totals(c, fleet)))
  {
    FleetTotalIsNonNegative(c, fleet);
    if fleet == map[] {
      assert Totals(c, fleet) == map[];
    } else {
      var r :| r in fleet;
      assert fleet.Keys != {};
      PercentIsNearest(Total(Passes(c, fleet)), Total(Totals(c, fleet)));
    }
  }

  // ---------------------------------------------------------------- the generic bundle

  type Table = seq<(string, int)>

  /** The controls of the generic bundle and what they weigh. */
  const GENERIC: Table := [
    ("CIS-NET-1.1.1", 20), ("CIS-NET-1.1.2", 40), ("CIS-NET-1.1.3", 20), ("CIS-NET-1.2.1", 20),
    ("CIS-NET-1.2.2", 40), ("CIS-NET-1.3.1", 40), ("CIS-NET-1.4.1", 10), ("CIS-NET-1.5.1", 20),
    ("CIS-NET-1.6.1", 5), ("CIS-NET-1.7.1", 10), ("CIS-NET-1.8.1", 10)]

  /** What the failed controls of a table weigh. */
  function Lost(table: Table, failed: set<string>): int {
    if table == [] then 0
    else
      var n := |table| - 1;
      Lost(table[..n], failed) + if table[n].0 in failed then table[n].1 else 0
  }

  function Whole(table: Table): int { if table == [] then 0 else Whole(table[..|table| - 1]) + table[|table| - 1].1 }

  function MapOf(table: Table): map<string, int> {
    if table == [] then map[]
    else
      var n := |table| - 1;
      MapOf(table[..n])[table[n].0 := table[n].1]
  }

  predicate Distinct(table: Table) { forall i, j :: 0 <= i < j < |table| ==> table[i].0 != table[j].0 }

  lemma {:induction false} TableTotal(table: Table, failed: set<string>)
    requires Distinct(table)
    ensures Total(MapOf(table) - failed) == Whole(table) - Lost(table, failed)
    ensures forall k :: k in MapOf(table) <==> exists i :: 0 <= i < |table| && table[i].0 == k
  {
    if table == [] {
      assert MapOf(table) - failed == MapOf(table);
    } else {
      var n := |table| - 1;
      var m, k, w := MapOf(table[..n]), table[n].0, table[n].1;
      TableTotal(table[..n], failed);
      assert k !in m;
      if k in failed {
        assert m[k := w] - failed == m - failed;
      } else {
        assert m[k := w] - failed == (m - failed)[k := w];
        TotalInsert(m - failed, k, w);
      }
    }
  }

  /** The positions of a control's name that tell it from the others. */
  lemma GenericIsDistinct()
    ensures Distinct(GENERIC)
  {
    forall i, j | 0 <= i < j < |GENERIC| ensures GENERIC[i].0 != GENERIC[j].0 {
      assert GENERIC[i].0[10] != GENERIC[j].0[10] || GENERIC[i].0[12] != GENERIC[j].0[12];
    }
  }

  lemma OneLine(n: nat)
    requires n < |GENERIC|
    ensures MapOf(GENERIC[..n + 1]) == MapOf(GENERIC[..n])[GENERIC[n].0 := GENERIC[n].1]
    ensures Whole(GENERIC[..n + 1]) == Whole(GENERIC[..n]) + GENERIC[n].1
  {
    assert GENERIC[..n + 1][..n] == GENERIC[..n];
  }

  lemma GenericTable()
    ensures MapOf(GENERIC) == CONTROL_WEIGHTS && Whole(GENERIC) == 235
  {
    OneLine(0);
    OneLine(1);
    OneLine(2);
    OneLine(3);
    OneLine(4);
    OneLine(5);
    OneLine(6);
    OneLine(7);
    OneLine(8);
    OneLine(9);
    OneLine(10);
    assert GENERIC[..11] == GENERIC && GENERIC[..0] == [];
  }

  /** Every finding names a control of the generic bundle. */
  ghost predicate AreGeneric(findings: seq<Finding>) {
    forall f :: f in findings && Counts(f) ==> f.control.value in CONTROL_WEIGHTS
  }

  function Named(findings: seq<Finding>): set<string> { set f | f in findings && Counts(f) :: f.control.value }

  /** Under the generic bundle a device's score is the whole percentage nearest to 235 less the
    * weights of the controls its findings name, of 235. */
  lemma GenericScore(c: Catalog, findings: seq<Finding>)
    requires c == CONTROL_WEIGHTS && AreGeneric(findings)
    ensures IsNearest(ComplianceScore(c, findings), 235 - Lost(GENERIC, Named(findings)), 235)
  {
    FailedAreNamed(findings);
    assert Universe(c, Failed(findings)) == c;
    GenericTotal({});
    assert c - {} == c;
    GenericTotal(Named(findings));
    ScoreIsNearest(c, findings);
  }

  lemma FailedAreNamed(findings: seq<Finding>)
    ensures Failed(findings).Keys == Named(findings)
  {
    forall k ensures k in Failed(findings) <==> k in Named(findings) { FailedExactly(findings, k); }
  }

  lemma GenericTotal(failed: set<string>)
    ensures Total(CONTROL_WEIGHTS - failed) == 235 - Lost(GENERIC, failed)
    ensures failed == {} ==> Lost(GENERIC, failed) == 0
  {
    GenericIsDistinct();
    GenericTable();
    TableTotal(GENERIC, failed);
    NothingLost(GENERIC);
  }

  lemma {:induction false} NothingLost(table: Table)
    ensures Lost(table, {}) == 0
  {
    if table == [] {
    } else {
      NothingLost(table[..|table| - 1]);
    }
  }

  // ------------------------------------------------------------- outside the bundle

  /** The weight of a severity in any letter case; one that is not known weighs 10. */
  function WeightOf(severity: string): int {
    var s := Text.Lower(severity);
    if s == "critical" then 40 else if s == "high" then 20 else if s == "low" then 5 else 10
  }

  lemma UpperIsLower(s: string, upper: string, lower: string)
    requires Text.Upper(lower) == upper && Text.Lower(upper) == lower
    ensures Text.Upper(s) == upper <==> Text.Lower(s) == lower
  {
    if Text.Upper(s) == upper {
      forall i | 0 <= i < |s| ensures Text.Lower(s)[i] == lower[i] {
        assert Text.Upper(s)[i] == Text.UpperChar(s[i]) && lower[i] == Text.LowerChar(upper[i]);
      }
    }
    if Text.Lower(s) == lower {
      forall i | 0 <= i < |s| ensures Text.Upper(s)[i] == upper[i] {
        assert Text.Lower(s)[i] == Text.LowerChar(s[i]) && upper[i] == Text.UpperChar(lower[i]);
      }
    }
  }

  lemma SeverityWeighs(f: Finding)
    ensures ScoreFinding(f) == WeightOf(f.severity)
  {
    UpperIsLower(f.severity, "CRITICAL", "critical");
    UpperIsLower(f.severity, "HIGH", "high");
    UpperIsLower(f.severity, "LOW", "low");
  }

  /** A failing control outside the bundle counts against the device at its own severity. */
  lemma UnlistedCounts(c: Catalog, findings: seq<Finding>, f: Finding)
    requires Counts(f) && f.control.value !in c && f.control.value !in Failed(findings)
    ensures TotalWeight(c, findings + [f]) == TotalWeight(c, findings) + WeightOf(f.severity)
    ensures PassedWeight(c, findings + [f]) == PassedWeight(c, findings)
  {
    var k, failed := f.control.value, Failed(findings);
    assert (findings + [f])[..|findings|] == findings;
    SeverityWeighs(f);
    assert Failed(findings + [f]) == failed[k := ScoreFinding(f)];
    assert Universe(c, failed[k := ScoreFinding(f)]) == Universe(c, failed)[k := ScoreFinding(f)];
    TotalInsert(Universe(c, failed), k, ScoreFinding(f));
    assert Universe(c, failed)[k := ScoreFinding(f)] - failed[k := ScoreFinding(f)].Keys == Universe(c, failed) - failed.Keys;
  }

  /** A failing control of the bundle takes its listed weight from what is passed. */
  lemma ListedCounts(c: Catalog, findings: seq<Finding>, f: Finding)
    requires Counts(f) && f.control.value in c && f.control.value !in Failed(findings)
    ensures TotalWeight(c, findings + [f]) == TotalWeight(c, findings)
    ensures PassedWeight(c, findings + [f]) == PassedWeight(c, findings) - c[f.control.value]
  {
    var k, failed := f.control.value, Failed(findings);
    assert (findings + [f])[..|findings|] == findings;
    assert Failed(findings + [f]) == failed[k := ScoreFinding(f)];
    assert Universe(c, failed[k := ScoreFinding(f)]) == Universe(c, failed);
    TotalRemove(Universe(c, failed) - failed.Keys, k);
    assert Universe(c, failed) - failed[k := ScoreFinding(f)].Keys == Universe(c, failed) - failed.Keys - {k};
  }
}
