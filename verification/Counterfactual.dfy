/** What a proposed change would do: the verdict and risk tier of going from one state to another. */
module Counterfactual {
  import opened Common
  import opened ReachabilityDiff
  import opened Scoring
  import ScoreMeaning
  import Text

  datatype Interface = Interface(name: Option<string>, address: Option<string>, mask: Option<string>, enabled: bool)
  datatype Neighbor = Neighbor(protocol: string, address: Option<string>)
  datatype Topology = Topology(interfaces: seq<Interface>, neighbors: seq<Neighbor>)

  /** A device as the engine sees it: its findings, access lists and topology. */
  datatype Baseline = Baseline(findings: seq<Finding>, acl: Option<Acl>, topology: Option<Topology>)

  const EMPTY_ACL := Acl([], [], None, None)
  const EMPTY_TOPOLOGY := Topology([], [])

  datatype BlastRadius = BlastRadius(interfacesAffected: nat, routesAffected: nat)

  function InterfaceKeys(t: Topology): set<Interface> { set i | i in t.interfaces }

  function NeighborKeys(t: Topology): set<Neighbor> {
    set n | n in t.neighbors :: Neighbor(Text.Lower(n.protocol), n.address)
  }

  function DiffTopology(before: Topology, after: Topology): BlastRadius {
    BlastRadius(|SymmetricDifference(InterfaceKeys(before), InterfaceKeys(after))|,
                |SymmetricDifference(NeighborKeys(before), NeighborKeys(after))|)
  }

  function OrElse<T>(o: Option<T>, default: T): T { if o.Some? then o.value else default }

  datatype Verdict = Safe | RiskFlag
  datatype Tier = LowRisk | MediumRisk | HighRisk

  datatype Effect = Effect(delta: int, resolved: set<string>, introduced: set<string>, reachability: Option<AclDiff>,
                           blastRadius: Option<BlastRadius>, risk: Tier, verdict: Verdict)

  function ControlsOf(fs: seq<Finding>): set<string> { set f | f in fs && Counts(f) :: f.control.value }

  datatype Severity = Critical | High | Medium | Low | Other

  function SeverityOf(f: Finding): Severity {
    var s := Text.Upper(f.severity);
    if s == "CRITICAL" then Critical else if s == "HIGH" then High else if s == "MEDIUM" then Medium
    else if s == "LOW" then Low else Other
  }

  function IntroducedSeverities(fs: seq<Finding>, introduced: set<string>): set<Severity> {
    set f | f in fs && f.control.Some? && f.control.value in introduced :: SeverityOf(f)
  }

  /** The worst severity introduced, raised one tier if the change opens access. */
  function RiskTier(severities: set<Severity>, opensAccess: bool, regressed: bool): Tier {
    var tier := if Critical in severities || High in severities then HighRisk
                else if Medium in severities || regressed then MediumRisk
                else LowRisk;
    if opensAccess && tier == LowRisk then MediumRisk
    else if opensAccess && tier == MediumRisk then HighRisk
    else tier
  }

  predicate OpensAccess(reachability: Option<AclDiff>) {
    && reachability.Some?
    && (reachability.value.ingress.newlyPermitted != {} || reachability.value.egress.newlyPermitted != {})
  }

  /** The diff is made only if one of the two sides has access lists. */
  function Reachability(current: Baseline, proposed: Baseline): Option<AclDiff> {
    if current.acl.None? && proposed.acl.None? then None
    else Some(DiffAcl(OrElse(current.acl, EMPTY_ACL), OrElse(proposed.acl, EMPTY_ACL)))
  }

  function Affected(current: Baseline, proposed: Baseline): Option<BlastRadius> {
    if current.topology.None? && proposed.topology.None? then None
    else Some(DiffTopology(OrElse(current.topology, EMPTY_TOPOLOGY), OrElse(proposed.topology, EMPTY_TOPOLOGY)))
  }

  ghost function Evaluate(c: Catalog, current: Baseline, proposed: Baseline): Effect {
    var before, after := ComplianceScore(c, current.findings), ComplianceScore(c, proposed.findings);
    var reachability := Reachability(current, proposed);
    var introduced := ControlsOf(proposed.findings) - ControlsOf(current.findings);
    var regressed := after < before;
    Effect(after - before, ControlsOf(current.findings) - ControlsOf(proposed.findings), introduced, reachability,
           Affected(current, proposed),
           RiskTier(IntroducedSeverities(proposed.findings, introduced), OpensAccess(reachability), regressed),
           if regressed || OpensAccess(reachability) then RiskFlag else Safe)
  }

  // --------------------------------------------------------------------- main results

  function Ingoing(b: Baseline): set<Flow> { Permitted(OrElse(b.acl, EMPTY_ACL).ingress) }
  function Outgoing(b: Baseline): set<Flow> { Permitted(OrElse(b.acl, EMPTY_ACL).egress) }

  /** A change is SAFE exactly when the score does not fall and both sides permit at most
    * what they did; a missing access list permits nothing. */
  lemma SafeExactly(c: Catalog, a: Baseline, b: Baseline)
    ensures Evaluate(c, a, b).verdict == Safe <==>
            ComplianceScore(c, a.findings) <= ComplianceScore(c, b.findings)
            && Ingoing(b) <= Ingoing(a) && Outgoing(b) <= Outgoing(a)
  {
    OpensExactly(a, b);
  }

  lemma OpensExactly(a: Baseline, b: Baseline)
    ensures OpensAccess(Reachability(a, b)) <==> !(Ingoing(b) <= Ingoing(a) && Outgoing(b) <= Outgoing(a))
  {
    var before, after := OrElse(a.acl, EMPTY_ACL), OrElse(b.acl, EMPTY_ACL);
    SideOpens(before.ingress, after.ingress);
    SideOpens(before.egress, after.egress);
  }

  lemma SideOpens(before: seq<Entry>, after: seq<Entry>)
    ensures DiffSide(before, after).newlyPermitted == {} <==> Permitted(after) <= Permitted(before)
  {
    Empty(Permitted(after), Permitted(before));
  }

  lemma Empty<T>(x: set<T>, y: set<T>)
    ensures x - y == {} <==> x <= y
  {
    if x - y == {} {
      assert forall e :: e in x ==> e in y || e in x - y;
    }
  }

  /** SAFE changes compose, and changing nothing is SAFE. */
  lemma SafeChangesCompose(c: Catalog, x: Baseline, y: Baseline, z: Baseline)
    ensures Evaluate(c, x, x).verdict == Safe
    ensures Evaluate(c, x, y).verdict == Safe && Evaluate(c, y, z).verdict == Safe ==> Evaluate(c, x, z).verdict == Safe
  {
    SafeExactly(c, x, x);
    SafeExactly(c, x, y);
    SafeExactly(c, y, z);
    SafeExactly(c, x, z);
  }

  /** A change and its undoing are both SAFE exactly when neither moves the score nor what
    * is permitted. */
  lemma SafeBothWaysExactly(c: Catalog, x: Baseline, y: Baseline)
    ensures Evaluate(c, x, y).verdict == Safe && Evaluate(c, y, x).verdict == Safe <==>
            ComplianceScore(c, x.findings) == ComplianceScore(c, y.findings)
            && Ingoing(x) == Ingoing(y) && Outgoing(x) == Outgoing(y)
  {
    SafeExactly(c, x, y);
    SafeExactly(c, y, x);
  }

  // -------------------------------------------------------------- the effect as it reads

  /** A finding of a control that did not fail before. */
  predicate Introduces(current: Baseline, f: Finding) {
    f.control.Some? && f.control.value != "" && forall g :: g in current.findings ==> g.control != f.control
  }

  /** The change introduces a finding of this severity, in any letter case. */
  ghost predicate IntroducesA(current: Baseline, proposed: Baseline, severity: string) {
    exists f :: f in proposed.findings && Introduces(current, f) && Text.Lower(f.severity) == severity
  }

  lemma IntroducedExactly(current: Baseline, proposed: Baseline, f: Finding)
    requires f in proposed.findings
    ensures f.control.Some? && f.control.value in ControlsOf(proposed.findings) - ControlsOf(current.findings)
            <==> Introduces(current, f)
  {
    if Introduces(current, f) {
      assert Counts(f);
      forall g | g in current.findings && Counts(g) ensures g.control.value != f.control.value {}
    }
    if f.control.Some? && f.control.value in ControlsOf(proposed.findings) - ControlsOf(current.findings) {
      forall g | g in current.findings ensures g.control != f.control {
        assert Counts(g) ==> g.control.value in ControlsOf(current.findings);
      }
    }
  }

  lemma SeverityReads(f: Finding)
    ensures SeverityOf(f) == Critical <==> Text.Lower(f.severity) == "critical"
    ensures SeverityOf(f) == High <==> Text.Lower(f.severity) == "high"
    ensures SeverityOf(f) == Medium <==> Text.Lower(f.severity) == "medium"
  {
    ScoreMeaning.UpperIsLower(f.severity, "CRITICAL", "critical");
    ScoreMeaning.UpperIsLower(f.severity, "HIGH", "high");
    ScoreMeaning.UpperIsLower(f.severity, "MEDIUM", "medium");
    assert |"CRITICAL"| == 8 && |"HIGH"| == 4 && |"MEDIUM"| == 6 && |"LOW"| == 3;
  }

  lemma IntroducedIs(current: Baseline, proposed: Baseline, severity: Severity, name: string)
    requires forall f :: SeverityOf(f) == severity <==> Text.Lower(f.severity) == name
    ensures severity in IntroducedSeverities(proposed.findings, ControlsOf(proposed.findings) - ControlsOf(current.findings))
            <==> IntroducesA(current, proposed, name)
  {
    forall f | f in proposed.findings
      ensures f.control.Some? && f.control.value in ControlsOf(proposed.findings) - ControlsOf(current.findings)
              <==> Introduces(current, f)
    {
      IntroducedExactly(current, proposed, f);
    }
  }

  ghost predicate Opens(a: Baseline, b: Baseline) { !(Ingoing(b) <= Ingoing(a) && Outgoing(b) <= Outgoing(a)) }

  ghost predicate Falls(c: Catalog, a: Baseline, b: Baseline) {
    ComplianceScore(c, b.findings) < ComplianceScore(c, a.findings)
  }

  /** The risk is high exactly if a critical or high finding is introduced, or access is opened and a
    * medium one is introduced or the score falls; and low exactly if none of this happens. */
  lemma RiskExactly(c: Catalog, a: Baseline, b: Baseline)
    ensures var risk, worst := Evaluate(c, a, b).risk, IntroducesA(a, b, "critical") || IntroducesA(a, b, "high");
            var bad := IntroducesA(a, b, "medium") || Falls(c, a, b);
            && (risk == HighRisk <==> worst || (Opens(a, b) && bad))
            && (risk == LowRisk <==> !worst && !Opens(a, b) && !bad)
  {
    OpensExactly(a, b);
    forall f { SeverityReads(f); }
    IntroducedIs(a, b, Critical, "critical");
    IntroducedIs(a, b, High, "high");
    IntroducedIs(a, b, Medium, "medium");
  }

  /** Some finding names the control. */
  ghost predicate FailsIn(b: Baseline, control: string) {
    control != "" && exists f :: f in b.findings && f.control == Some(control)
  }

  lemma ControlsExactly(b: Baseline, control: string)
    ensures control in ControlsOf(b.findings) <==> FailsIn(b, control)
  {
    if f :| f in b.findings && f.control == Some(control) && control != "" { assert Counts(f); }
  }

  /** The delta is how much the score rises; a control is resolved exactly if it failed and no longer
    * does, and introduced exactly if it did not fail and now does. */
  lemma EffectExactly(c: Catalog, a: Baseline, b: Baseline, control: string)
    ensures Evaluate(c, a, b).delta == ComplianceScore(c, b.findings) - ComplianceScore(c, a.findings)
    ensures control in Evaluate(c, a, b).resolved <==> FailsIn(a, control) && !FailsIn(b, control)
    ensures control in Evaluate(c, a, b).introduced <==> !FailsIn(a, control) && FailsIn(b, control)
  {
    ControlsExactly(a, control);
    ControlsExactly(b, control);
  }

  predicate HasTopology(b: Baseline, t: Topology) {
    if b.topology == None then t.interfaces == [] && t.neighbors == [] else b.topology == Some(t)
  }

  predicate HasAcl(b: Baseline, x: Acl) {
    if b.acl == None then x == Acl([], [], None, None) else b.acl == Some(x)
  }

  /** The reachability and the blast radius are left out exactly if neither side has access lists or a
    * topology; a single side without them is like one with empty ones. */
  lemma MissingExactly(c: Catalog, a: Baseline, b: Baseline, s: Topology, t: Topology, x: Acl, y: Acl)
    requires HasTopology(a, s) && HasTopology(b, t) && HasAcl(a, x) && HasAcl(b, y)
    ensures Evaluate(c, a, b).blastRadius
            == if a.topology == None && b.topology == None then None else Some(DiffTopology(s, t))
    ensures Evaluate(c, a, b).reachability == if a.acl == None && b.acl == None then None else Some(DiffAcl(x, y))
  {
    assert s == OrElse(a.topology, EMPTY_TOPOLOGY) && t == OrElse(b.topology, EMPTY_TOPOLOGY);
  }

  /** Neighbours are the same whatever the letter case of their protocol. */
  predicate SameNeighbor(m: Neighbor, n: Neighbor) {
    Text.Lower(m.protocol) == Text.Lower(n.protocol) && m.address == n.address
  }

  ghost predicate Routes(t: Topology, n: Neighbor) { exists m :: m in t.neighbors && SameNeighbor(m, n) }

  /** An interface or a neighbour that is added counts as one more unless the new side has it
    * already, and as one less if only the old side had it. */
  lemma AffectedExactly(before: Topology, after: Topology, i: Interface, n: Neighbor)
    ensures DiffTopology(before, before) == BlastRadius(0, 0)
    ensures DiffTopology(before, after.(interfaces := after.interfaces + [i])).interfacesAffected
            - DiffTopology(before, after).interfacesAffected
            == if i in after.interfaces then 0 else if i in before.interfaces then -1 else 1
    ensures DiffTopology(before, after.(neighbors := after.neighbors + [n])).routesAffected
            - DiffTopology(before, after).routesAffected
            == if Routes(after, n) then 0 else if Routes(before, n) then -1 else 1
  {
    var k := Neighbor(Text.Lower(n.protocol), n.address);
    assert InterfaceKeys(after.(interfaces := after.interfaces + [i])) == InterfaceKeys(after) + {i};
    assert NeighborKeys(after.(neighbors := after.neighbors + [n])) == NeighborKeys(after) + {k};
    NeighborsExactly(before, n);
    NeighborsExactly(after, n);
    OneMoreElement(InterfaceKeys(before), InterfaceKeys(after), i);
    OneMoreElement(NeighborKeys(before), NeighborKeys(after), k);
  }

  lemma NeighborsExactly(t: Topology, n: Neighbor)
    ensures Neighbor(Text.Lower(n.protocol), n.address) in NeighborKeys(t) <==> Routes(t, n)
  {
    forall m | m in t.neighbors
      ensures Neighbor(Text.Lower(m.protocol), m.address) == Neighbor(Text.Lower(n.protocol), n.address) <==> SameNeighbor(m, n) {}
  }
}
