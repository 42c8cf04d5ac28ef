/** The flows an access list permits before and after a change, and the lines it touches. */
module ReachabilityDiff {
  import opened Common
  import Text

  /** One access-list entry; a missing text field is the empty string. */
  datatype Entry = Entry(sequence: Option<int>, action: string, protocol: string, source: string, destination: string,
                         port: Option<string>)

  datatype Flow = Flow(protocol: string, source: string, destination: string, port: string)

  datatype Line = Line(sequence: Option<int>, action: string, flow: Flow)

  datatype Acl = Acl(ingress: seq<Entry>, egress: seq<Entry>, ingressName: Option<string>, egressName: Option<string>)

  const ANY := "any"
  const PERMIT := "permit"

  function FlowKey(e: Entry): Flow {
    Flow(Text.Lower(e.protocol), Text.Lower(e.source), Text.Lower(e.destination),
         if e.port.None? || e.port.value == "" then ANY else Text.Lower(e.port.value))
  }

  function LineKey(e: Entry): Line { Line(e.sequence, Text.Lower(e.action), FlowKey(e)) }

  predicate Permits(e: Entry) { Text.Lower(e.action) == PERMIT }

  function Permitted(entries: seq<Entry>): set<Flow> { set e | e in entries && Permits(e) :: FlowKey(e) }

  function Lines(entries: seq<Entry>): set<Line> { set e | e in entries :: LineKey(e) }

  function SymmetricDifference<T(==)>(a: set<T>, b: set<T>): set<T> { (a - b) + (b - a) }

  /** A protocol and port, shown as protocol/port. */
  datatype Service = Service(protocol: string, port: string)

  datatype SideDiff = SideDiff(newlyBlocked: set<Flow>, newlyPermitted: set<Flow>, linesTouched: nat, services: set<Service>)

  function DiffSide(before: seq<Entry>, after: seq<Entry>): SideDiff {
    var blocked := Permitted(before) - Permitted(after);
    var permitted := Permitted(after) - Permitted(before);
    SideDiff(blocked, permitted, |SymmetricDifference(Lines(before), Lines(after))|,
             set f | f in blocked + permitted :: Service(f.protocol, f.port))
  }

  datatype Side = Ingress | Egress

  datatype Touched = Touched(side: Side, aclName: Option<string>)

  datatype AclDiff = AclDiff(ingress: SideDiff, egress: SideDiff, interfacesTouched: seq<Touched>, linesTouched: nat,
                             services: set<Service>, hasReachabilityChange: bool)

  predicate IsTouched(d: SideDiff) { d.linesTouched != 0 || d.newlyBlocked != {} || d.newlyPermitted != {} }

  predicate Reroutes(d: SideDiff) { d.newlyBlocked != {} || d.newlyPermitted != {} }

  function NameOf(after: Option<string>, before: Option<string>): Option<string> {
    if after.Some? && after.value != "" then after else before
  }

  function TouchedSides(ingress: bool, ingressName: Option<string>, egress: bool, egressName: Option<string>): seq<Touched> {
    (if ingress then [Touched(Ingress, ingressName)] else []) + (if egress then [Touched(Egress, egressName)] else [])
  }

  function DiffAcl(before: Acl, after: Acl): AclDiff {
    var ingress, egress := DiffSide(before.ingress, after.ingress), DiffSide(before.egress, after.egress);
    AclDiff(ingress, egress,
            TouchedSides(IsTouched(ingress), NameOf(after.ingressName, before.ingressName),
                         IsTouched(egress), NameOf(after.egressName, before.egressName)),
            ingress.linesTouched + egress.linesTouched,
            ingress.services + egress.services,
            Reroutes(ingress) || Reroutes(egress))
  }

  // -------------------------------------------------------------------- main results

  /** Undoing a change exchanges blocked and permitted flows and touches as many lines. */
  lemma UndoIsSymmetric(before: seq<Entry>, after: seq<Entry>)
    ensures var d, u := DiffSide(before, after), DiffSide(after, before);
            && u.newlyBlocked == d.newlyPermitted && u.newlyPermitted == d.newlyBlocked
            && u.linesTouched == d.linesTouched && u.services == d.services
  {
    assert SymmetricDifference(Lines(before), Lines(after)) == SymmetricDifference(Lines(after), Lines(before));
    var d, u := DiffSide(before, after), DiffSide(after, before);
    assert u.newlyBlocked + u.newlyPermitted == d.newlyBlocked + d.newlyPermitted;
  }

  /** Two changes in a row permit no more than the two permit between them, and touch at most
    * as many lines. */
  lemma LegsCoverTheWhole(a: seq<Entry>, b: seq<Entry>, c: seq<Entry>)
    ensures DiffSide(a, c).newlyPermitted <= DiffSide(a, b).newlyPermitted + DiffSide(b, c).newlyPermitted
    ensures DiffSide(a, c).newlyBlocked <= DiffSide(a, b).newlyBlocked + DiffSide(b, c).newlyBlocked
    ensures DiffSide(a, c).linesTouched <= DiffSide(a, b).linesTouched + DiffSide(b, c).linesTouched
  {
    Triangle(Lines(a), Lines(b), Lines(c));
    Cover(Permitted(a), Permitted(b), Permitted(c));
    Cover(Permitted(c), Permitted(b), Permitted(a));
  }

  lemma Cover<T>(a: set<T>, b: set<T>, c: set<T>)
    ensures c - a <= (b - a) + (c - b)
  {
  }

  lemma Triangle<T>(a: set<T>, b: set<T>, c: set<T>)
    ensures |SymmetricDifference(a, c)| <= |SymmetricDifference(a, b)| + |SymmetricDifference(b, c)|
  {
    var x, y := SymmetricDifference(a, b), SymmetricDifference(b, c);
    SubsetCardinality(SymmetricDifference(a, c), x + y);
    assert x + y == x + (y - x);
    SubsetCardinality(y - x, y);
  }

  /** No line is touched exactly when both sides have the same lines, and a flow changes
    * only if a line does. */
  lemma FlowsChangeThroughLines(before: seq<Entry>, after: seq<Entry>)
    ensures DiffSide(before, after).linesTouched == 0 <==> Lines(before) == Lines(after)
    ensures IsTouched(DiffSide(before, after)) <==> Lines(before) != Lines(after)
  {
    var x := SymmetricDifference(Lines(before), Lines(after));
    if x == {} {
      assert Lines(before) == Lines(after) by {
        assert Lines(before) - Lines(after) <= x && Lines(after) - Lines(before) <= x;
      }
      PermittedFromLines(before, after);
      PermittedFromLines(after, before);
    }
  }

  lemma PermittedFromLines(before: seq<Entry>, after: seq<Entry>)
    requires Lines(before) <= Lines(after)
    ensures Permitted(before) <= Permitted(after)
  {
    forall f | f in Permitted(before) ensures f in Permitted(after) {
      var e :| e in before && Permits(e) && FlowKey(e) == f;
      assert LineKey(e) in Lines(after);
      var e' :| e' in after && LineKey(e') == LineKey(e);
    }
  }

  /** The reported change is a change of what is permitted on one of the two sides. */
  lemma ReachabilityChangeIsReal(before: Acl, after: Acl)
    ensures var d := DiffAcl(before, after);
            && (d.hasReachabilityChange
                <==> Permitted(before.ingress) != Permitted(after.ingress) || Permitted(before.egress) != Permitted(after.egress))
            && (d.hasReachabilityChange ==> d.linesTouched > 0 && d.interfacesTouched != [])
            && (d.interfacesTouched == [] <==> d.linesTouched == 0)
  {
    FlowsChangeThroughLines(before.ingress, after.ingress);
    FlowsChangeThroughLines(before.egress, after.egress);
    SamePermissions(before.ingress, after.ingress);
    SamePermissions(before.egress, after.egress);
  }

  lemma SamePermissions(before: seq<Entry>, after: seq<Entry>)
    ensures Reroutes(DiffSide(before, after)) <==> Permitted(before) != Permitted(after)
  {
    var a, b := Permitted(before), Permitted(after);
    if a - b == {} && b - a == {} {
      assert a <= b && b <= a;
    }
  }

  // ---------------------------------------------------------- entries as they are written

  /** The port of an entry; none or an empty one is any port. */
  predicate HasPort(e: Entry, port: string) {
    if e.port == None || e.port == Some("") then port == "any" else port == Text.Lower(e.port.value)
  }

  /** The entry permits this flow, whatever its letter case. */
  predicate PermitsFlow(e: Entry, f: Flow) {
    && Text.Lower(e.action) == "permit"
    && f.protocol == Text.Lower(e.protocol) && f.source == Text.Lower(e.source) && f.destination == Text.Lower(e.destination)
    && HasPort(e, f.port)
  }

  ghost predicate SomePermits(entries: seq<Entry>, f: Flow) { exists e :: e in entries && PermitsFlow(e, f) }

  lemma PermittedExactly(entries: seq<Entry>, f: Flow)
    ensures f in Permitted(entries) <==> SomePermits(entries, f)
  {
    forall e | e in entries ensures Permits(e) && FlowKey(e) == f <==> PermitsFlow(e, f) {}
  }

  /** A flow is newly permitted exactly if some entry permits it after the change and none did
    * before, and newly blocked the other way round. */
  lemma FlowsExactly(before: seq<Entry>, after: seq<Entry>, f: Flow)
    ensures f in DiffSide(before, after).newlyPermitted <==> SomePermits(after, f) && !SomePermits(before, f)
    ensures f in DiffSide(before, after).newlyBlocked <==> SomePermits(before, f) && !SomePermits(after, f)
  {
    PermittedExactly(before, f);
    PermittedExactly(after, f);
  }

  ghost predicate Changes(before: seq<Entry>, after: seq<Entry>, f: Flow) { SomePermits(before, f) != SomePermits(after, f) }

  /** A service is affected exactly if it is that of a flow that changes. */
  lemma ServicesExactly(before: seq<Entry>, after: seq<Entry>, x: Service)
    ensures x in DiffSide(before, after).services <==>
            exists f :: Changes(before, after, f) && f.protocol == x.protocol && f.port == x.port
  {
    var d := DiffSide(before, after);
    forall f ensures f in d.newlyBlocked + d.newlyPermitted <==> Changes(before, after, f) { FlowsExactly(before, after, f); }
    if x in d.services {
      var f :| f in d.newlyBlocked + d.newlyPermitted && Service(f.protocol, f.port) == x;
      assert Changes(before, after, f);
    }
  }

  /** The same line: the same sequence number, and the same words in any letter case. */
  predicate SameLine(d: Entry, e: Entry) {
    && d.sequence == e.sequence && Text.Lower(d.action) == Text.Lower(e.action)
    && Text.Lower(d.protocol) == Text.Lower(e.protocol) && Text.Lower(d.source) == Text.Lower(e.source)
    && Text.Lower(d.destination) == Text.Lower(e.destination)
    && PortOf(d) == PortOf(e)
  }

  function PortOf(e: Entry): string { if e.port == None || e.port == Some("") then "any" else Text.Lower(e.port.value) }

  lemma LinesAgree(d: Entry, e: Entry)
    ensures LineKey(d) == LineKey(e) <==> SameLine(d, e)
  {
  }

  ghost predicate HasLine(entries: seq<Entry>, e: Entry) { exists d :: d in entries && SameLine(d, e) }

  lemma LineExactly(entries: seq<Entry>, e: Entry)
    ensures LineKey(e) in Lines(entries) <==> HasLine(entries, e)
  {
    forall d | d in entries ensures LineKey(d) == LineKey(e) <==> SameLine(d, e) { LinesAgree(d, e); }
  }

  lemma OneMoreLine(entries: seq<Entry>, e: Entry)
    ensures Lines(entries + [e]) == Lines(entries) + {LineKey(e)}
  {
  }

  /** An entry that is added touches one line more exactly if neither side has that line yet, one
    * line less if only the other side has it, and otherwise none. */
  lemma TouchedExactly(before: seq<Entry>, after: seq<Entry>, e: Entry)
    ensures DiffSide([], []).linesTouched == 0
    ensures DiffSide(before, after + [e]).linesTouched - DiffSide(before, after).linesTouched
            == if HasLine(after, e) then 0 else if HasLine(before, e) then -1 else 1
    ensures DiffSide(before, after).linesTouched == DiffSide(after, before).linesTouched
  {
    UndoIsSymmetric(before, after);
    OneMoreLine(after, e);
    LineExactly(before, e);
    LineExactly(after, e);
    OneMoreElement(Lines(before), Lines(after), LineKey(e));
  }

  lemma OneMoreElement<T>(a: set<T>, b: set<T>, x: T)
    ensures |SymmetricDifference(a, b + {x})| - |SymmetricDifference(a, b)| == if x in b then 0 else if x in a then -1 else 1
  {
    if x in b {
      assert b + {x} == b;
    } else if x in a {
      assert SymmetricDifference(a, b) == SymmetricDifference(a, b + {x}) + {x};
    } else {
      assert SymmetricDifference(a, b + {x}) == SymmetricDifference(a, b) + {x};
    }
  }

  /** Lines and services are those of both sides. */
  lemma SidesAddUp(before: Acl, after: Acl)
    ensures var d, i, e := DiffAcl(before, after), DiffSide(before.ingress, after.ingress), DiffSide(before.egress, after.egress);
            && d.ingress == i && d.egress == e && d.linesTouched == i.linesTouched + e.linesTouched
            && forall x :: x in d.services <==> x in i.services || x in e.services
  {
  }

  /** A side is listed as touched exactly if a line of it is, under the new name if there is one. */
  lemma SidesExactly(before: Acl, after: Acl, name: Option<string>)
    ensures Touched(Ingress, name) in DiffAcl(before, after).interfacesTouched <==>
            DiffSide(before.ingress, after.ingress).linesTouched > 0 && name == Renamed(before.ingressName, after.ingressName)
    ensures Touched(Egress, name) in DiffAcl(before, after).interfacesTouched <==>
            DiffSide(before.egress, after.egress).linesTouched > 0 && name == Renamed(before.egressName, after.egressName)
  {
    TouchedByLines(before.ingress, after.ingress);
    TouchedByLines(before.egress, after.egress);
    NamedAnew(before.ingressName, after.ingressName);
    NamedAnew(before.egressName, after.egressName);
    SidesListed(IsTouched(DiffSide(before.ingress, after.ingress)), NameOf(after.ingressName, before.ingressName),
                IsTouched(DiffSide(before.egress, after.egress)), NameOf(after.egressName, before.egressName), name);
  }

  lemma TouchedByLines(before: seq<Entry>, after: seq<Entry>)
    ensures IsTouched(DiffSide(before, after)) <==> DiffSide(before, after).linesTouched > 0
  {
    FlowsChangeThroughLines(before, after);
  }

  lemma NamedAnew(was: Option<string>, now: Option<string>)
    ensures NameOf(now, was) == Renamed(was, now)
  {
  }

  lemma SidesListed(i: bool, x: Option<string>, e: bool, y: Option<string>, name: Option<string>)
    ensures Touched(Ingress, name) in TouchedSides(i, x, e, y) <==> i && name == x
    ensures Touched(Egress, name) in TouchedSides(i, x, e, y) <==> e && name == y
  {
  }

  function Renamed(was: Option<string>, now: Option<string>): Option<string> {
    if now == None || now == Some("") then was else now
  }
}
