/** Whether the directions the script estimate reports are true of the device it runs on. */
module ScriptDirection {
  import opened Common
  import opened ScriptImpact

  datatype Packet = Packet(header: string)

  /** Does an entry's or a trusted host's text match a packet. */
  type Matcher = (string, Packet) -> bool

  datatype Rule = Rule(action: Action, rest: string)

  /** What traffic can reach: a vty line, one side of an interface, or the administration of a
    * FortiOS device. */
  datatype Place = Vty(name: string) | Side(interface: string, inbound: bool) | Admin

  /** The access lists, the list that filters each line or side, the vty lines whose transport is
    * shut, and the trusted hosts by slot. */
  datatype Device = Device(lists: map<string, seq<Rule>>, filters: map<Place, string>, shut: set<string>,
                           trusted: map<string, string>)

  /** The first matching entry decides; at the end everything is denied. */
  predicate Permits(rules: seq<Rule>, m: Matcher, p: Packet) {
    rules != [] && if m(rules[0].rest, p) then rules[0].action == Permit else Permits(rules[1..], m, p)
  }

  function ListOf(d: Device, acl: string): seq<Rule> { if acl in d.lists then d.lists[acl] else [] }

  /** Without trusted hosts everybody is. */
  predicate Trusts(trusted: map<string, string>, m: Matcher, p: Packet) {
    trusted == map[] || exists slot :: slot in trusted && m(trusted[slot], p)
  }

  predicate Reaches(d: Device, place: Place, m: Matcher, p: Packet) {
    match place
    case Admin => Trusts(d.trusted, m, p)
    case Vty(name) => name !in d.shut && PassesFilter(d, place, m, p)
    case Side(_, _) => PassesFilter(d, place, m, p)
  }

  predicate PassesFilter(d: Device, place: Place, m: Matcher, p: Packet) {
    place in d.filters ==> Permits(ListOf(d, d.filters[place]), m, p)
  }

  /** Whatever reaches a place of `one` reaches it in `other`. */
  ghost predicate Within(one: Device, other: Device, m: Matcher) {
    forall place, p :: Reaches(one, place, m, p) ==> Reaches(other, place, m, p)
  }

  // ------------------------------------------------------------ what a line does

  /** Without the first entry of this text. */
  function Without(rules: seq<Rule>, r: Rule): seq<Rule> {
    if rules == [] then [] else if rules[0] == r then rules[1..] else [rules[0]] + Without(rules[1..], r)
  }

  function SetFilter(d: Device, place: Place, removed: bool, acl: string): Device {
    if removed then d.(filters := d.filters - {place}) else d.(filters := d.filters[place := acl])
  }

  function RemoveEntry(d: Device, acl: string, r: Rule): Device {
    if acl in d.lists then d.(lists := d.lists[acl := Without(d.lists[acl], r)]) else d
  }

  function SetHost(d: Device, slot: string, host: Option<string>): Device {
    d.(trusted := if host.Some? then d.trusted[slot := host.value] else d.trusted - {slot})
  }

  /** The place a filter line is about, if its block was seen. */
  function PlaceOf(c: Context, f: Form): Option<Place> {
    match f
    case AccessClass(_, _) => if c.vty.Some? then Some(Vty(c.vty.value)) else None
    case AccessGroup(_, _, inbound) => if c.interface.Some? then Some(Side(c.interface.value, inbound)) else None
    case _ => None
  }

  function Do(d: Device, c: Context, f: Form): Device {
    match f
    case AccessClass(removed, acl) => if PlaceOf(c, f).Some? then SetFilter(d, PlaceOf(c, f).value, removed, acl) else d
    case AccessGroup(removed, acl, _) => if PlaceOf(c, f).Some? then SetFilter(d, PlaceOf(c, f).value, removed, acl) else d
    case AclEntry(true, action, rest) => if c.acl.Some? then RemoveEntry(d, c.acl.value, Rule(action, rest)) else d
    case NumberedEntry(true, acl, action, rest) => RemoveEntry(d, acl, Rule(action, rest))
    case TransportInput(true) => if c.vty.Some? then d.(shut := d.shut + {c.vty.value}) else d
    case TrustedHost(slot, host) => SetHost(d, slot, host)
    case _ => d
  }

  function Run(d: Device, lines: seq<Line>): Device {
    if lines == [] then d
    else Do(Run(d, lines[..|lines| - 1]), ContextAfter(lines[..|lines| - 1]), lines[|lines| - 1].form)
  }

  /** The lines to which the estimate gives a direction, or which change no reachability. */
  predicate IsDirected(f: Form) {
    match f
    case AclEntry(removed, _, _) => removed
    case NumberedEntry(removed, _, _, _) => removed
    case TransportInput(none) => none
    case AllowAccess => false
    case Other => false
    case _ => true
  }

  ghost predicate AllDirected(lines: seq<Line>) { forall i :: 0 <= i < |lines| ==> IsDirected(lines[i].form) }

  // -------------------------------------------------------------------- entries

  lemma {:induction false} RemovalDirection(rules: seq<Rule>, r: Rule, m: Matcher, p: Packet)
    ensures r.action == Permit && Permits(Without(rules, r), m, p) ==> Permits(rules, m, p)
    ensures r.action == Deny && Permits(rules, m, p) ==> Permits(Without(rules, r), m, p)
  {
    if rules == [] {
    } else if rules[0] == r {
    } else {
      RemovalDirection(rules[1..], r, m, p);
      assert ([rules[0]] + Without(rules[1..], r))[1..] == Without(rules[1..], r);
    }
  }

  /** Removing a permit only narrows and removing a deny only widens, whatever the list holds
    * and wherever it is applied. */
  lemma EntryDirection(d: Device, acl: string, r: Rule, m: Matcher)
    ensures r.action == Permit ==> Within(RemoveEntry(d, acl, r), d, m)
    ensures r.action == Deny ==> Within(d, RemoveEntry(d, acl, r), m)
  {
    forall p { RemovalDirection(ListOf(d, acl), r, m, p); }
  }

  // -------------------------------------------------------------------- filters

  /** The list lets through no more than the filter that is there, if there is one. */
  ghost predicate Tightens(d: Device, place: Place, acl: string, m: Matcher) {
    place in d.filters ==> forall p :: Permits(ListOf(d, acl), m, p) ==> Permits(ListOf(d, d.filters[place]), m, p)
  }

  predicate IsShut(d: Device, place: Place) { place.Vty? && place.name in d.shut }

  /** Applying a filter narrows exactly if the place is shut, unfiltered, or filtered by a list
    * that permits everything the new one does. */
  lemma ApplyNarrowsExactly(d: Device, place: Place, acl: string, m: Matcher)
    requires !place.Admin?
    ensures Within(SetFilter(d, place, false, acl), d, m) <==> IsShut(d, place) || Tightens(d, place, acl, m)
  {
    var d' := SetFilter(d, place, false, acl);
    if Within(d', d, m) && !IsShut(d, place) && place in d.filters {
      forall p | Permits(ListOf(d, acl), m, p) ensures Permits(ListOf(d, d.filters[place]), m, p) {
        assert Reaches(d', place, m, p);
      }
    }
  }

  lemma RemoveWidens(d: Device, place: Place, acl: string, m: Matcher)
    ensures Within(d, SetFilter(d, place, true, acl), m)
  {
  }

  // -------------------------------------------------------------- trusted hosts

  /** Setting a trusted host narrows exactly if there was none, or all it matches was trusted. */
  lemma TrustNarrowsExactly(d: Device, slot: string, host: string, m: Matcher)
    ensures Within(SetHost(d, slot, Some(host)), d, m) <==> forall p :: m(host, p) ==> Trusts(d.trusted, m, p)
  {
    var d' := SetHost(d, slot, Some(host));
    assert d'.trusted[slot] == host;
    if Within(d', d, m) {
      forall p | m(host, p) ensures Trusts(d.trusted, m, p) { assert Reaches(d', Admin, m, p); }
    }
    if forall p :: m(host, p) ==> Trusts(d.trusted, m, p) {
      forall p | Trusts(d'.trusted, m, p) ensures Trusts(d.trusted, m, p) {
        var s :| s in d'.trusted && m(d'.trusted[s], p);
        if s != slot { assert s in d.trusted && d.trusted[s] == d'.trusted[s]; }
      }
    }
  }

  /** Unsetting one widens exactly if it was not set, or all it matches is trusted without it: by
    * another host, or because none is left. */
  lemma UntrustWidensExactly(d: Device, slot: string, m: Matcher)
    ensures Within(d, SetHost(d, slot, None), m) <==>
            (slot in d.trusted ==> forall p :: m(d.trusted[slot], p) ==> Trusts(d.trusted - {slot}, m, p))
  {
    var d' := SetHost(d, slot, None);
    if slot !in d.trusted {
      assert d.trusted - {slot} == d.trusted;
    } else {
      if Within(d, d', m) {
        forall p | m(d.trusted[slot], p) ensures Trusts(d'.trusted, m, p) { assert Reaches(d, Admin, m, p); }
      }
      if forall p :: m(d.trusted[slot], p) ==> Trusts(d.trusted - {slot}, m, p) {
        forall p | Trusts(d.trusted, m, p) ensures Trusts(d'.trusted, m, p) {
          var s :| s in d.trusted && m(d.trusted[s], p);
          if s != slot { assert s in d'.trusted && d'.trusted[s] == d.trusted[s]; }
        }
      }
    }
  }

  // ------------------------------------------------------------------ whole scripts

  /** Where the line stands, it applies no filter and sets no trusted host but to narrow. */
  ghost predicate AppliesTighter(d: Device, c: Context, f: Form, m: Matcher) {
    match f
    case AccessClass(false, acl) =>
      PlaceOf(c, f).Some? ==> IsShut(d, PlaceOf(c, f).value) || Tightens(d, PlaceOf(c, f).value, acl, m)
    case AccessGroup(false, acl, _) => PlaceOf(c, f).Some? ==> Tightens(d, PlaceOf(c, f).value, acl, m)
    case TrustedHost(_, Some(host)) => forall p :: m(host, p) ==> Trusts(d.trusted, m, p)
    case _ => true
  }

  ghost predicate AllTighter(d: Device, lines: seq<Line>, m: Matcher) {
    lines != [] ==>
      && var before := lines[..|lines| - 1];
      && AllTighter(d, before, m)
      && AppliesTighter(Run(d, before), ContextAfter(before), lines[|lines| - 1].form, m)
  }

  /** Where the line stands, it unsets no trusted host but to widen. */
  ghost predicate RemovesLooser(d: Device, f: Form, m: Matcher) {
    f.TrustedHost? && f.host.None? && f.slot in d.trusted ==>
      forall p :: m(d.trusted[f.slot], p) ==> Trusts(d.trusted - {f.slot}, m, p)
  }

  ghost predicate AllLooser(d: Device, lines: seq<Line>, m: Matcher) {
    lines != [] ==>
      && var before := lines[..|lines| - 1];
      && AllLooser(d, before, m)
      && RemovesLooser(Run(d, before), lines[|lines| - 1].form, m)
  }

  lemma LineNarrows(d: Device, c: Context, l: Line, m: Matcher)
    requires IsDirected(l.form) && Impact(c, l).permitted == [] && AppliesTighter(d, c, l.form, m)
    ensures Within(Do(d, c, l.form), d, m)
  {
    match l.form
    case AccessClass(_, acl) => if PlaceOf(c, l.form).Some? { ApplyNarrowsExactly(d, PlaceOf(c, l.form).value, acl, m); }
    case AccessGroup(_, acl, _) => if PlaceOf(c, l.form).Some? { ApplyNarrowsExactly(d, PlaceOf(c, l.form).value, acl, m); }
    case AclEntry(_, action, rest) => if c.acl.Some? { EntryDirection(d, c.acl.value, Rule(action, rest), m); }
    case NumberedEntry(_, acl, action, rest) => EntryDirection(d, acl, Rule(action, rest), m);
    case TrustedHost(slot, host) => TrustNarrowsExactly(d, slot, host.value, m);
    case _ =>
  }

  lemma LineWidens(d: Device, c: Context, l: Line, m: Matcher)
    requires IsDirected(l.form) && Impact(c, l).blocked == [] && RemovesLooser(d, l.form, m)
    ensures Within(d, Do(d, c, l.form), m)
  {
    match l.form
    case AccessClass(_, acl) => if PlaceOf(c, l.form).Some? { RemoveWidens(d, PlaceOf(c, l.form).value, acl, m); }
    case AccessGroup(_, acl, _) => if PlaceOf(c, l.form).Some? { RemoveWidens(d, PlaceOf(c, l.form).value, acl, m); }
    case AclEntry(_, action, rest) => if c.acl.Some? { EntryDirection(d, c.acl.value, Rule(action, rest), m); }
    case NumberedEntry(_, acl, action, rest) => EntryDirection(d, acl, Rule(action, rest), m);
    case TrustedHost(slot, _) => UntrustWidensExactly(d, slot, m);
    case _ =>
  }

  /** A script for which nothing newly permitted is reported only narrows what reaches any
    * place, if it replaces no filter and adds no trusted host that permits more. */
  lemma {:induction false} NothingPermittedNarrows(d: Device, lines: seq<Line>, m: Matcher)
    requires AllDirected(lines) && EstimateOf(lines).permitted == [] && AllTighter(d, lines, m)
    ensures Within(Run(d, lines), d, m)
  {
    if lines == [] {
    } else {
      var before := lines[..|lines| - 1];
      NothingPermittedNarrows(d, before, m);
      LineNarrows(Run(d, before), ContextAfter(before), lines[|lines| - 1], m);
    }
  }

  /** A script for which nothing newly blocked is reported only widens it, if it takes away no
    * trusted host while others remain that match less. */
  lemma {:induction false} NothingBlockedWidens(d: Device, lines: seq<Line>, m: Matcher)
    requires AllDirected(lines) && EstimateOf(lines).blocked == [] && AllLooser(d, lines, m)
    ensures Within(d, Run(d, lines), m)
  {
    if lines == [] {
    } else {
      var before := lines[..|lines| - 1];
      NothingBlockedWidens(d, before, m);
      LineWidens(Run(d, before), ContextAfter(before), lines[|lines| - 1], m);
    }
  }

  // ----------------------------------------------------------- where the claims fail

  /** Not on every device does applying a filter narrow: where a strict one is in place it opens
    * the line, and the estimate reports it as blocking. */
  lemma ReplacingFilterWidens(m: Matcher, p: Packet)
    requires m("any", p)
    ensures var d := Device(map["STRICT" := [], "OPEN" := [Rule(Permit, "any")]], map[Vty("0 4") := "STRICT"], {}, map[]);
            var lines := [Line(false, VtyHeader("0 4")), Line(true, AccessClass(false, "OPEN"))];
            && EstimateOf(lines).permitted == [] && EstimateOf(lines).blocked == [Filter(Some("0 4"), "OPEN")]
            && !Reaches(d, Vty("0 4"), m, p) && Reaches(Run(d, lines), Vty("0 4"), m, p)
  {
    var header, apply := Line(false, VtyHeader("0 4")), Line(true, AccessClass(false, "OPEN"));
    assert [header, apply][..1] == [header] && [header][..0] == [];
    assert ContextAfter([header]) == Context(Some("0 4"), None, None);
  }

  /** Nor does unsetting a trusted host widen while another one remains: it shuts its host out,
    * and the estimate reports it as permitting. */
  lemma UnsettingHostNarrows(m: Matcher, p: Packet, one: string, other: string)
    requires m(one, p) && !m(other, p)
    ensures var d := Device(map[], map[], {}, map["1" := one, "2" := other]);
            var lines := [Line(true, TrustedHost("1", None))];
            && EstimateOf(lines).blocked == [] && EstimateOf(lines).permitted == [Trusted(None)]
            && Reaches(d, Admin, m, p) && !Reaches(Run(d, lines), Admin, m, p)
  {
    var line := Line(true, TrustedHost("1", None));
    var trusted := map["1" := one, "2" := other];
    assert [line][..0] == [];
    assert trusted["1"] == one && trusted - {"1"} == map["2" := other];
    assert "2" in map["2" := other];
  }
}
