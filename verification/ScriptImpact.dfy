/** What a remediation script narrows or widens, read line by line with the block it stands in. */
module ScriptImpact {
  import opened Common

  datatype Action = Permit | Deny

  /** The forms of line that are recognised; the patterns do not overlap. */
  datatype Form =
    | Blank
    | InterfaceHeader(name: string)
    | VtyHeader(name: string)
    | TransportInput(none: bool)
    | AccessClass(removed: bool, acl: string)
    | AccessGroup(removed: bool, acl: string, inbound: bool)
    | AclHeader(name: string)
    | AclEntry(removed: bool, action: Action, rest: string)
    | NumberedEntry(removed: bool, acl: string, action: Action, rest: string)
    | TrustedHost(slot: string, host: Option<string>)
    | AllowAccess
    | Route(text: string)
    | Other

  datatype Line = Line(indented: bool, form: Form)

  /** The blocks the scanner takes itself to be in. */
  datatype Context = Context(vty: Option<string>, interface: Option<string>, acl: Option<string>)

  const OUTSIDE := Context(None, None, None)

  /** A change whose direction is known: a filter on a line or interface (None when its block
    * was not seen), an entry of an access list, a trusted host, or all transport. */
  datatype Change =
    | Filter(place: Option<string>, acl: string)
    | Entry(acl: string, action: Action, rest: string)
    | Trusted(host: Option<string>)
    | Transport(place: Option<string>)

  datatype Estimate = Estimate(blocked: seq<Change>, permitted: seq<Change>, routes: seq<string>, interfaces: seq<string>,
                               acls: seq<string>)

  const NOTHING := Estimate([], [], [], [], [])

  function Blocks(c: Change): Estimate { NOTHING.(blocked := [c]) }
  function Opens(c: Change): Estimate { NOTHING.(permitted := [c]) }

  /** Only the removal of an entry has a direction. */
  function EntryImpact(removed: bool, acl: string, action: Action, rest: string): Estimate {
    if !removed then NOTHING
    else if action == Deny then Opens(Entry(acl, action, rest)) else Blocks(Entry(acl, action, rest))
  }

  /** An unindented line that is none of the forms tried before ends the access list. */
  predicate StaysInAcl(l: Line) {
    l.indented || l.form.Blank? || l.form.TransportInput? || l.form.AccessClass? || l.form.AccessGroup? || l.form.AclEntry?
  }

  function Leave(c: Context, l: Line): Context { if StaysInAcl(l) then c else c.(acl := None) }

  function Enter(c: Context, l: Line): Context {
    match l.form
    case InterfaceHeader(name) => Context(None, Some(name), None)
    case VtyHeader(name) => Context(Some(name), None, None)
    case AclHeader(name) => c.(acl := Some(name))
    case _ => Leave(c, l)
  }

  /** What one line contributes, in its context. */
  function Impact(c: Context, l: Line): Estimate {
    match l.form
    case InterfaceHeader(name) => NOTHING.(interfaces := [name])
    case VtyHeader(name) => NOTHING.(interfaces := [name])
    case TransportInput(none) => if none then Blocks(Transport(c.vty)) else NOTHING
    case AccessClass(removed, acl) =>
      (if removed then Opens(Filter(c.vty, acl)) else Blocks(Filter(c.vty, acl))).(acls := [acl])
    case AccessGroup(removed, acl, _) =>
      (if removed then Opens(Filter(c.interface, acl)) else Blocks(Filter(c.interface, acl))).(acls := [acl])
    case AclHeader(name) => NOTHING.(acls := [name])
    case AclEntry(removed, action, rest) => if c.acl.Some? then EntryImpact(removed, c.acl.value, action, rest) else NOTHING
    case NumberedEntry(removed, acl, action, rest) => EntryImpact(removed, acl, action, rest).(acls := [acl])
    case TrustedHost(_, host) => if host.Some? then Blocks(Trusted(host)) else Opens(Trusted(None))
    case Route(text) => NOTHING.(routes := [text])
    case _ => NOTHING
  }

  function Both(a: Estimate, b: Estimate): Estimate {
    Estimate(a.blocked + b.blocked, a.permitted + b.permitted, a.routes + b.routes, a.interfaces + b.interfaces, a.acls + b.acls)
  }

  function ContextAfter(lines: seq<Line>): Context {
    if lines == [] then OUTSIDE else Enter(ContextAfter(lines[..|lines| - 1]), lines[|lines| - 1])
  }

  function EstimateOf(lines: seq<Line>): Estimate {
    if lines == [] then NOTHING
    else
      var before := lines[..|lines| - 1];
      Both(EstimateOf(before), Impact(ContextAfter(before), lines[|lines| - 1]))
  }

  method EstimateReachabilityImpact(lines: seq<Line>) returns (e: Estimate)
    ensures e == EstimateOf(lines)
  {
    e := NOTHING;
    var vty, interface, acl := None, None, None;
    for i := 0 to |lines|
      invariant e == EstimateOf(lines[..i])
      invariant Context(vty, interface, acl) == ContextAfter(lines[..i])
    {
      assert lines[..i + 1][..i] == lines[..i];
      e := Both(e, Impact(Context(vty, interface, acl), lines[i]));
      match lines[i].form {
        case InterfaceHeader(name) => vty, interface, acl := None, Some(name), None;
        case VtyHeader(name) => vty, interface, acl := Some(name), None, None;
        case AclHeader(name) => acl := Some(name);
        case _ => if !StaysInAcl(lines[i]) { acl := None; }
      }
    }
    assert lines[..|lines|] == lines;
  }

  // ----------------------------------------------------------------- what a context is

  predicate IsBlockHeader(f: Form) { f.InterfaceHeader? || f.VtyHeader? }

  /** A vty header that no other block header follows. */
  ghost predicate InVty(lines: seq<Line>, name: string) {
    exists i :: 0 <= i < |lines| && lines[i].form == VtyHeader(name)
                && forall j :: i < j < |lines| ==> !IsBlockHeader(lines[j].form)
  }

  ghost predicate InInterface(lines: seq<Line>, name: string) {
    exists i :: 0 <= i < |lines| && lines[i].form == InterfaceHeader(name)
                && forall j :: i < j < |lines| ==> !IsBlockHeader(lines[j].form)
  }

  predicate KeepsAcl(l: Line) { !IsBlockHeader(l.form) && !l.form.AclHeader? && StaysInAcl(l) }

  /** An access-list header after which every line stays in the list. */
  ghost predicate InAcl(lines: seq<Line>, name: string) {
    exists i :: 0 <= i < |lines| && lines[i].form == AclHeader(name)
                && forall j :: i < j < |lines| ==> KeepsAcl(lines[j])
  }

  /** The scanner's three variables name exactly the nearest enclosing blocks. */
  lemma {:induction false} ContextIsNearestHeader(lines: seq<Line>, name: string)
    ensures ContextAfter(lines).vty == Some(name) <==> InVty(lines, name)
    ensures ContextAfter(lines).interface == Some(name) <==> InInterface(lines, name)
    ensures ContextAfter(lines).acl == Some(name) <==> InAcl(lines, name)
  {
    if lines == [] {
    } else {
      var before, l := lines[..|lines| - 1], lines[|lines| - 1];
      assert lines == before + [l];
      ContextIsNearestHeader(before, name);
      VtyStep(before, l, name);
      InterfaceStep(before, l, name);
      AclStep(before, l, name);
    }
  }

  lemma VtyStep(before: seq<Line>, l: Line, name: string)
    ensures InVty(before + [l], name)
            <==> l.form == VtyHeader(name) || (!IsBlockHeader(l.form) && InVty(before, name))
  {
    var lines := before + [l];
    if InVty(lines, name) {
      var i :| 0 <= i < |lines| && lines[i].form == VtyHeader(name)
               && forall j :: i < j < |lines| ==> !IsBlockHeader(lines[j].form);
      if i < |before| {
        assert lines[|before|] == l && before[i] == lines[i];
        assert forall j :: i < j < |before| ==> before[j] == lines[j];
      }
    }
    if l.form == VtyHeader(name) { assert lines[|before|] == l; }
    if !IsBlockHeader(l.form) && InVty(before, name) {
      var i :| 0 <= i < |before| && before[i].form == VtyHeader(name)
               && forall j :: i < j < |before| ==> !IsBlockHeader(before[j].form);
      assert lines[i] == before[i];
    }
  }

  lemma InterfaceStep(before: seq<Line>, l: Line, name: string)
    ensures InInterface(before + [l], name)
            <==> l.form == InterfaceHeader(name) || (!IsBlockHeader(l.form) && InInterface(before, name))
  {
    var lines := before + [l];
    if InInterface(lines, name) {
      var i :| 0 <= i < |lines| && lines[i].form == InterfaceHeader(name)
               && forall j :: i < j < |lines| ==> !IsBlockHeader(lines[j].form);
      if i < |before| {
        assert lines[|before|] == l && before[i] == lines[i];
        assert forall j :: i < j < |before| ==> before[j] == lines[j];
      }
    }
    if l.form == InterfaceHeader(name) { assert lines[|before|] == l; }
    if !IsBlockHeader(l.form) && InInterface(before, name) {
      var i :| 0 <= i < |before| && before[i].form == InterfaceHeader(name)
               && forall j :: i < j < |before| ==> !IsBlockHeader(before[j].form);
      assert lines[i] == before[i];
    }
  }

  lemma AclStep(before: seq<Line>, l: Line, name: string)
    ensures InAcl(before + [l], name) <==> l.form == AclHeader(name) || (KeepsAcl(l) && InAcl(before, name))
  {
    var lines := before + [l];
    if InAcl(lines, name) {
      var i :| 0 <= i < |lines| && lines[i].form == AclHeader(name) && forall j :: i < j < |lines| ==> KeepsAcl(lines[j]);
      if i < |before| {
        assert lines[|before|] == l && before[i] == lines[i];
        assert forall j :: i < j < |before| ==> before[j] == lines[j];
      }
    }
    if l.form == AclHeader(name) { assert lines[|before|] == l; }
    if KeepsAcl(l) && InAcl(before, name) {
      var i :| 0 <= i < |before| && before[i].form == AclHeader(name) && forall j :: i < j < |before| ==> KeepsAcl(before[j]);
      assert lines[i] == before[i];
    }
  }

  // ------------------------------------------------------------------------- undoing

  /** The line that takes a filter back: apply for remove, remove for apply. */
  function Undo(l: Line): Line {
    match l.form
    case AccessClass(removed, acl) => Line(l.indented, AccessClass(!removed, acl))
    case AccessGroup(removed, acl, inbound) => Line(l.indented, AccessGroup(!removed, acl, inbound))
    case _ => l
  }

  function UndoAll(lines: seq<Line>): seq<Line> {
    if lines == [] then [] else UndoAll(lines[..|lines| - 1]) + [Undo(lines[|lines| - 1])]
  }

  /** Block headers and filters, the lines that an undoing script repeats. */
  predicate IsFilterScript(lines: seq<Line>) {
    forall i :: 0 <= i < |lines| ==>
      lines[i].form.Blank? || IsBlockHeader(lines[i].form) || lines[i].form.AccessClass? || lines[i].form.AccessGroup?
  }

  /** The script that undoes a script of filters blocks what that permitted and permits what
    * that blocked, and touches the same places. */
  lemma {:induction false} UndoExchanges(lines: seq<Line>)
    requires IsFilterScript(lines)
    ensures ContextAfter(UndoAll(lines)) == ContextAfter(lines)
    ensures var e, u := EstimateOf(lines), EstimateOf(UndoAll(lines));
            && u.blocked == e.permitted && u.permitted == e.blocked
            && u.interfaces == e.interfaces && u.acls == e.acls && u.routes == e.routes
  {
    if lines == [] {
    } else {
      var before, l := lines[..|lines| - 1], lines[|lines| - 1];
      UndoExchanges(before);
      assert UndoAll(lines)[..|UndoAll(before)|] == UndoAll(before);
    }
  }

  // ------------------------------------------------------------------ what is reported

  ghost predicate VtyIs(lines: seq<Line>, place: Option<string>) {
    match place
    case Some(name) => InVty(lines, name)
    case None => forall name :: !InVty(lines, name)
  }

  ghost predicate InterfaceIs(lines: seq<Line>, place: Option<string>) {
    match place
    case Some(name) => InInterface(lines, name)
    case None => forall name :: !InInterface(lines, name)
  }

  lemma PlacesAre(lines: seq<Line>, place: Option<string>)
    ensures VtyIs(lines, place) <==> place == ContextAfter(lines).vty
    ensures InterfaceIs(lines, place) <==> place == ContextAfter(lines).interface
  {
    forall name { ContextIsNearestHeader(lines, name); }
    if place.Some? { ContextIsNearestHeader(lines, place.value); }
    if ContextAfter(lines).vty.Some? { ContextIsNearestHeader(lines, ContextAfter(lines).vty.value); }
    if ContextAfter(lines).interface.Some? { ContextIsNearestHeader(lines, ContextAfter(lines).interface.value); }
  }

  /** A line after these restricts (or else opens) in this way: a filter on the line or interface
    * whose block it stands in, the shutting of all transport, the removal of a permit (or else of
    * a deny) from the list it stands in or names, or a trusted host that is set (or else unset). */
  ghost predicate Reports(before: seq<Line>, l: Line, c: Change, blocks: bool) {
    match l.form
    case AccessClass(removed, acl) => c.Filter? && c.acl == acl && VtyIs(before, c.place) && blocks == !removed
    case AccessGroup(removed, acl, _) => c.Filter? && c.acl == acl && InterfaceIs(before, c.place) && blocks == !removed
    case TransportInput(none) => none && c.Transport? && VtyIs(before, c.place) && blocks
    case AclEntry(removed, action, rest) =>
      removed && c.Entry? && InAcl(before, c.acl) && c.action == action && c.rest == rest && blocks == action.Permit?
    case NumberedEntry(removed, acl, action, rest) =>
      removed && c == Entry(acl, action, rest) && blocks == action.Permit?
    case TrustedHost(_, host) => c == Trusted(host) && blocks == host.Some?
    case _ => false
  }

  /** The same, by the scanner's variables. */
  predicate ReportsIn(at: Context, l: Line, c: Change, blocks: bool) {
    match l.form
    case AccessClass(removed, acl) => c == Filter(at.vty, acl) && blocks == !removed
    case AccessGroup(removed, acl, _) => c == Filter(at.interface, acl) && blocks == !removed
    case TransportInput(none) => none && c == Transport(at.vty) && blocks
    case AclEntry(removed, action, rest) =>
      removed && at.acl.Some? && c == Entry(at.acl.value, action, rest) && blocks == action.Permit?
    case NumberedEntry(removed, acl, action, rest) => removed && c == Entry(acl, action, rest) && blocks == action.Permit?
    case TrustedHost(_, host) => c == Trusted(host) && blocks == host.Some?
    case _ => false
  }

  lemma ImpactIs(at: Context, l: Line, c: Change)
    ensures c in Impact(at, l).blocked <==> ReportsIn(at, l, c, true)
    ensures c in Impact(at, l).permitted <==> ReportsIn(at, l, c, false)
  {
  }

  lemma InItsPlace(before: seq<Line>, l: Line, c: Change, blocks: bool)
    ensures ReportsIn(ContextAfter(before), l, c, blocks) <==> Reports(before, l, c, blocks)
  {
    match l.form
    case AccessClass(_, _) => if c.Filter? { PlacesAre(before, c.place); }
    case AccessGroup(_, _, _) => if c.Filter? { PlacesAre(before, c.place); }
    case TransportInput(_) => if c.Transport? { PlacesAre(before, c.place); }
    case AclEntry(_, _, _) => if c.Entry? { ContextIsNearestHeader(before, c.acl); }
    case _ =>
  }

  lemma ImpactReports(before: seq<Line>, l: Line, c: Change)
    ensures c in Impact(ContextAfter(before), l).blocked <==> Reports(before, l, c, true)
    ensures c in Impact(ContextAfter(before), l).permitted <==> Reports(before, l, c, false)
  {
    ImpactIs(ContextAfter(before), l, c);
    InItsPlace(before, l, c, true);
    InItsPlace(before, l, c, false);
  }

  ghost predicate ReportsAt(lines: seq<Line>, i: int, c: Change, blocks: bool) {
    0 <= i < |lines| && Reports(lines[..i], lines[i], c, blocks)
  }

  lemma ReportsEarlier(lines: seq<Line>, i: int, c: Change, blocks: bool)
    requires lines != [] && i < |lines| - 1
    ensures ReportsAt(lines, i, c, blocks) <==> ReportsAt(lines[..|lines| - 1], i, c, blocks)
  {
    if i >= 0 { assert lines[..|lines| - 1][..i] == lines[..i]; }
  }

  ghost predicate SomeReports(lines: seq<Line>, c: Change, blocks: bool) { exists i :: ReportsAt(lines, i, c, blocks) }

  lemma SomeReportsNow(lines: seq<Line>, c: Change, blocks: bool)
    requires lines != []
    ensures var n := |lines| - 1;
            SomeReports(lines, c, blocks) <==> SomeReports(lines[..n], c, blocks) || Reports(lines[..n], lines[n], c, blocks)
  {
    var n := |lines| - 1;
    forall i | i < n ensures ReportsAt(lines, i, c, blocks) <==> ReportsAt(lines[..n], i, c, blocks) {
      ReportsEarlier(lines, i, c, blocks);
    }
    assert ReportsAt(lines, n, c, blocks) <==> Reports(lines[..n], lines[n], c, blocks);
  }

  /** What is reported as blocked or permitted is what the lines do, each where it stands. */
  lemma {:induction false} ReportedExactly(lines: seq<Line>, c: Change)
    ensures c in EstimateOf(lines).blocked <==> SomeReports(lines, c, true)
    ensures c in EstimateOf(lines).permitted <==> SomeReports(lines, c, false)
  {
    if lines == [] {
    } else {
      var n := |lines| - 1;
      ReportedExactly(lines[..n], c);
      ImpactReports(lines[..n], lines[n], c);
      SomeReportsNow(lines, c, true);
      SomeReportsNow(lines, c, false);
    }
  }

  /** The line names this interface or vty line, this access list, or is this route. */
  predicate NamesPlace(f: Form, name: string) { f == InterfaceHeader(name) || f == VtyHeader(name) }

  predicate NamesAcl(f: Form, name: string) {
    || (f.AccessClass? && f.acl == name) || (f.AccessGroup? && f.acl == name) || (f.NumberedEntry? && f.acl == name)
    || f == AclHeader(name)
  }

  /** Every place, access list and route that a line names is listed, and nothing else is. */
  lemma {:induction false} ListedExactly(lines: seq<Line>, x: string)
    ensures x in EstimateOf(lines).interfaces <==> exists l :: l in lines && NamesPlace(l.form, x)
    ensures x in EstimateOf(lines).acls <==> exists l :: l in lines && NamesAcl(l.form, x)
    ensures x in EstimateOf(lines).routes <==> exists l :: l in lines && l.form == Route(x)
  {
    if lines == [] {
    } else {
      var n := |lines| - 1;
      var before, l := lines[..n], lines[n];
      ListedExactly(before, x);
      assert lines == before + [l];
      LineLists(before, l, x);
      assert forall k :: k in lines <==> k in before || k == l;
    }
  }

  lemma LineLists(before: seq<Line>, l: Line, x: string)
    ensures x in Impact(ContextAfter(before), l).interfaces <==> NamesPlace(l.form, x)
    ensures x in Impact(ContextAfter(before), l).acls <==> NamesAcl(l.form, x)
    ensures x in Impact(ContextAfter(before), l).routes <==> l.form == Route(x)
  {
  }
}
