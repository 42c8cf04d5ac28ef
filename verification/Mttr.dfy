/** Mean time to remediate: each pair's earliest detection is matched with the earliest
  * approval strictly after it; what has none is still open. */
module Mttr {
  import opened Common
  import opened Ledger
  import opened Sorting
  import Text

  datatype Tier = Critical | High | Medium | Low

  const TIERS: seq<Tier> := [Critical, High, Medium, Low]

  // Timestamps count microseconds.
  const SECOND := 1_000_000
  const HOUR := 3600 * SECOND
  const DAY := 24 * HOUR

  function SlaTarget(t: Tier): int {
    match t
    case Critical => 8 * HOUR
    case High => 5 * DAY
    case Medium => 30 * DAY
    case Low => 30 * DAY
  }

  /** A missing, empty or unknown severity is MEDIUM. */
  function TierOf(severity: Option<string>): Tier {
    if severity.None? || severity.value == "" then Medium
    else
      var s := Text.Upper(severity.value);
      if s == "CRITICAL" then Critical else if s == "HIGH" then High else if s == "LOW" then Low else Medium
  }

  datatype Outcome =
    | NeverDetected
    | Closed(tier: Tier, duration: int)
    | StillOpen(tier: Tier, age: int, overSla: bool)

  predicate Approves(e: Event, d: Event) { e.kind == Approved && e.at > d.at }

  function Judge(d: Event, approval: Option<Event>, now: int): Outcome {
    var tier := TierOf(d.severity);
    match approval
    case Some(a) => Closed(tier, a.at - d.at)
    case None => StillOpen(tier, now - d.at, now - d.at > SlaTarget(tier))
  }

  /** What becomes of one pair, given its own events in any order. */
  function OutcomeOf(mine: seq<Event>, now: int): Outcome {
    match Earliest(mine, IsDetection, When)
    case None => NeverDetected
    case Some(d) => Judge(d, Earliest(mine, e => Approves(e, d), When), now)
  }

  method Classify(mine: seq<Event>, now: int) returns (o: Outcome)
    ensures o == OutcomeOf(mine, now)
  {
    var sorted := SortBy(mine, When);
    SortByOrders(mine, When);
    var d := First(sorted, IsDetection, When);
    SortingKeepsEarliest(mine, IsDetection, When);
    if d.None? {
      return NeverDetected;
    }
    var later := e => Approves(e, d.value);
    var a := First(sorted, later, When);
    SortingKeepsEarliest(mine, later, When);
    return Judge(d.value, a, now);
  }

  // -------------------------------------------------------------------- grouping

  function OfPair(events: seq<Event>, p: Pair): seq<Event> {
    if events == [] then []
    else
      var before, e := events[..|events| - 1], events[|events| - 1];
      if e.about == p then OfPair(before, p) + [e] else OfPair(before, p)
  }

  /** The pairs in the order they first appear. */
  function PairsOf(events: seq<Event>): seq<Pair> {
    if events == [] then []
    else
      var pairs, p := PairsOf(events[..|events| - 1]), events[|events| - 1].about;
      if p in pairs then pairs else pairs + [p]
  }

  ghost predicate Groups(byPair: map<Pair, seq<Event>>, pairs: seq<Pair>, events: seq<Event>) {
    && (forall p :: p in byPair <==> p in pairs)
    && (forall p :: p in byPair ==> byPair[p] == OfPair(events, p))
    && (forall p :: p !in pairs ==> OfPair(events, p) == [])
  }

  /** A dictionary from pair to its events; its keys keep the order of insertion. */
  method Group(events: seq<Event>) returns (byPair: map<Pair, seq<Event>>, pairs: seq<Pair>)
    ensures pairs == PairsOf(events) && Groups(byPair, pairs, events)
  {
    byPair, pairs := map[], [];
    for i := 0 to |events|
      invariant pairs == PairsOf(events[..i]) && Groups(byPair, pairs, events[..i])
    {
      assert events[..i + 1][..i] == events[..i];
      byPair, pairs := AddTo(byPair, pairs, events[..i], events[i]);
    }
    assert events[..|events|] == events;
  }

  method AddTo(byPair: map<Pair, seq<Event>>, pairs: seq<Pair>, ghost before: seq<Event>, e: Event)
    returns (byPair': map<Pair, seq<Event>>, pairs': seq<Pair>)
    requires Groups(byPair, pairs, before)
    ensures pairs' == if e.about in pairs then pairs else pairs + [e.about]
    ensures Groups(byPair', pairs', before + [e])
  {
    assert (before + [e])[..|before|] == before;
    var p := e.about;
    if p in byPair {
      byPair', pairs' := byPair[p := byPair[p] + [e]], pairs;
    } else {
      byPair', pairs' := byPair[p := [e]], pairs + [p];
    }
  }

  // --------------------------------------------------------------------- summary

  datatype OpenViolation = OpenViolation(about: Pair, tier: Tier, age: int, overSla: bool)

  datatype TierSummary = TierSummary(average: Option<real>, target: int, sampleSize: nat)

  datatype Summary = Summary(byTier: map<Tier, TierSummary>, open: seq<OpenViolation>, openOverSla: nat)

  function Outcomes(events: seq<Event>, now: int): map<Pair, Outcome> {
    map p | p in PairsOf(events) :: OutcomeOf(OfPair(events, p), now)
  }

  predicate Covers(outcomes: map<Pair, Outcome>, pairs: seq<Pair>) { forall p :: p in pairs ==> p in outcomes }

  /** The closed durations of a tier, in the order the pairs are visited. */
  function Durations(outcomes: map<Pair, Outcome>, pairs: seq<Pair>, t: Tier): seq<int>
    requires Covers(outcomes, pairs)
  {
    if pairs == [] then []
    else
      var before, o := pairs[..|pairs| - 1], outcomes[pairs[|pairs| - 1]];
      assert Covers(outcomes, before);
      if o.Closed? && o.tier == t then Durations(outcomes, before, t) + [o.duration] else Durations(outcomes, before, t)
  }

  function Opened(outcomes: map<Pair, Outcome>, pairs: seq<Pair>): seq<OpenViolation>
    requires Covers(outcomes, pairs)
  {
    if pairs == [] then []
    else
      var before, p := pairs[..|pairs| - 1], pairs[|pairs| - 1];
      var o := outcomes[p];
      assert Covers(outcomes, before);
      if o.StillOpen? then Opened(outcomes, before) + [OpenViolation(p, o.tier, o.age, o.overSla)]
      else Opened(outcomes, before)
  }

  function Sum(xs: seq<int>): int { if xs == [] then 0 else Sum(xs[..|xs| - 1]) + xs[|xs| - 1] }

  function OverSla(open: seq<OpenViolation>): nat {
    if open == [] then 0 else OverSla(open[..|open| - 1]) + if open[|open| - 1].overSla then 1 else 0
  }

  /** The mean in seconds. */
  function Mean(xs: seq<int>): Option<real> {
    if xs == [] then None else Some(Sum(xs) as real / SECOND as real / |xs| as real)
  }

  function Summarised(t: Tier, durations: seq<int>): TierSummary {
    TierSummary(Mean(durations), SlaTarget(t), |durations|)
  }

  function SummaryOf(outcomes: map<Pair, Outcome>, pairs: seq<Pair>): Summary
    requires Covers(outcomes, pairs)
  {
    Summary(map t | t in TIERS :: Summarised(t, Durations(outcomes, pairs, t)),
            Opened(outcomes, pairs), OverSla(Opened(outcomes, pairs)))
  }

  lemma {:induction false} PairsAreThose(events: seq<Event>)
    ensures forall p :: p in PairsOf(events) <==> exists e :: e in events && e.about == p
    ensures forall i, j :: 0 <= i < j < |PairsOf(events)| ==> PairsOf(events)[i] != PairsOf(events)[j]
  {
    if events == [] {
    } else {
      PairsAreThose(events[..|events| - 1]);
      assert events == events[..|events| - 1] + [events[|events| - 1]];
    }
  }

  method Summarise(events: seq<Event>, now: int) returns (s: Summary)
    ensures s == SummaryOf(Outcomes(events, now), PairsOf(events))
  {
    var byPair, pairs := Group(events);
    ghost var outcomes := Outcomes(events, now);
    assert Decides(outcomes, byPair, pairs, now);
    var closed, open := Settle(byPair, pairs, now, outcomes);
    var byTier := PerTier(closed);
    var over := CountOver(open);
    s := Summary(byTier, open, over);
  }

  ghost predicate Decides(outcomes: map<Pair, Outcome>, byPair: map<Pair, seq<Event>>, pairs: seq<Pair>, now: int) {
    && Covers(outcomes, pairs)
    && (forall p :: p in pairs ==> p in byPair)
    && (forall p {:trigger OutcomeOf(byPair[p], now)} :: p in pairs ==> OutcomeOf(byPair[p], now) == outcomes[p])
  }

  /** Judge the pairs one after the other. */
  method Settle(byPair: map<Pair, seq<Event>>, pairs: seq<Pair>, now: int, ghost outcomes: map<Pair, Outcome>)
    returns (closed: map<Tier, seq<int>>, open: seq<OpenViolation>)
    requires Decides(outcomes, byPair, pairs, now)
    ensures Settled(outcomes, pairs, closed, open)
  {
    closed, open := map[], [];
    for i := 0 to |pairs|
      invariant Settled(outcomes, pairs[..i], closed, open)
    {
      var p := pairs[i];
      var o := Classify(byPair[p], now);
      assert pairs[..i + 1] == pairs[..i] + [p];
      closed, open := Place(outcomes, pairs[..i], closed, open, p, o);
    }
    assert pairs[..|pairs|] == pairs;
  }

  ghost predicate Settled(outcomes: map<Pair, Outcome>, pairs: seq<Pair>, closed: map<Tier, seq<int>>,
                          open: seq<OpenViolation>)
  {
    && Covers(outcomes, pairs)
    && (forall t :: Get(closed, t) == Durations(outcomes, pairs, t))
    && open == Opened(outcomes, pairs)
  }

  method Place(ghost outcomes: map<Pair, Outcome>, ghost pairs: seq<Pair>, closed: map<Tier, seq<int>>,
               open: seq<OpenViolation>, p: Pair, o: Outcome)
    returns (closed': map<Tier, seq<int>>, open': seq<OpenViolation>)
    requires Settled(outcomes, pairs, closed, open) && p in outcomes && outcomes[p] == o
    ensures Settled(outcomes, pairs + [p], closed', open')
  {
    assert (pairs + [p])[..|pairs|] == pairs;
    closed', open' := closed, open;
    match o {
      case NeverDetected =>
      case Closed(tier, duration) => closed' := closed[tier := Get(closed, tier) + [duration]];
      case StillOpen(tier, age, overSla) => open' := open + [OpenViolation(p, tier, age, overSla)];
    }
  }

  function Get(closed: map<Tier, seq<int>>, t: Tier): seq<int> { if t in closed then closed[t] else [] }

  method PerTier(closed: map<Tier, seq<int>>) returns (byTier: map<Tier, TierSummary>)
    ensures byTier == map t | t in TIERS :: Summarised(t, Get(closed, t))
  {
    byTier := map[];
    for i := 0 to |TIERS|
      invariant byTier == map t | t in TIERS[..i] :: Summarised(t, Get(closed, t))
    {
      byTier := byTier[TIERS[i] := Summarised(TIERS[i], Get(closed, TIERS[i]))];
    }
  }

  method CountOver(open: seq<OpenViolation>) returns (n: nat)
    ensures n == OverSla(open)
  {
    n := 0;
    for i := 0 to |open|
      invariant n == OverSla(open[..i])
    {
      assert open[..i + 1][..i] == open[..i];
      if open[i].overSla { n := n + 1; }
    }
    assert open[..|open|] == open;
  }
}
