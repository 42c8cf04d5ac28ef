/** What the remediation-time summary means, that it accounts for every detected pair,
  * and when it does not depend on the order of the ledger. */
module MttrLaws {
  import opened Common
  import opened Ledger
  import opened Mttr
  import opened Sorting
  import opened Sums

  // --------------------------------------------------------------- one pair's outcome

  /** d is a detection of p and no detection of p is earlier. */
  ghost predicate IsFirst(events: seq<Event>, p: Pair, d: Event) {
    && d in events && d.about == p && d.kind == Detected
    && forall x :: x in events && x.about == p && x.kind == Detected ==> d.at <= x.at
  }

  /** a is an approval of p after d and no approval of p after d is earlier. */
  ghost predicate IsNextApproval(events: seq<Event>, p: Pair, d: Event, a: Event) {
    && a in events && a.about == p && Approves(a, d)
    && forall x :: x in events && x.about == p && Approves(x, d) ==> a.at <= x.at
  }

  ghost predicate Unapproved(events: seq<Event>, p: Pair, d: Event) {
    forall x :: x in events && x.about == p ==> !Approves(x, d)
  }

  /** The outcome of a pair, stated on the ledger itself. */
  lemma OutcomeMeans(events: seq<Event>, p: Pair, now: int)
    ensures var o := OutcomeOf(OfPair(events, p), now);
            && (o.NeverDetected? <==> p !in DetectedPairs(events))
            && (o.Closed? ==> exists d, a :: IsFirst(events, p, d) && IsNextApproval(events, p, d, a)
                                             && o == Closed(TierOf(d.severity), a.at - d.at) && o.duration > 0)
            && (o.StillOpen? ==> exists d :: IsFirst(events, p, d) && Unapproved(events, p, d)
                                             && o.tier == TierOf(d.severity) && o.age == now - d.at
                                             && (o.overSla <==> o.age > SlaTarget(o.tier)))
  {
    var mine := OfPair(events, p);
    OfPairIs(events, p);
    EarliestIsLeast(mine, IsDetection, When);
    var first := Earliest(mine, IsDetection, When);
    if first.None? {
      assert forall e :: e in events && e.about == p ==> e in mine && !IsDetection(e);
    } else {
      var d := first.value;
      assert IsFirst(events, p, d) by {
        forall x | x in events && x.about == p && x.kind == Detected ensures d.at <= x.at {
          assert x in mine && IsDetection(x) && When(d) <= When(x);
        }
      }
      NextApproval(events, p, d);
    }
  }

  lemma NextApproval(events: seq<Event>, p: Pair, d: Event)
    ensures var next := Earliest(OfPair(events, p), e => Approves(e, d), When);
            if next.None? then Unapproved(events, p, d) else IsNextApproval(events, p, d, next.value)
  {
    var mine, q := OfPair(events, p), e => Approves(e, d);
    OfPairIs(events, p);
    EarliestIsLeast(mine, q, When);
    var next := Earliest(mine, q, When);
    forall x | x in events && x.about == p && Approves(x, d)
      ensures next.Some? && next.value.at <= x.at
    {
      assert x in mine && q(x) && When(next.value) <= When(x);
    }
  }

  lemma {:induction false} OfPairIs(events: seq<Event>, p: Pair)
    ensures forall e :: e in OfPair(events, p) <==> e in events && e.about == p
    ensures forall e :: multiset(OfPair(events, p))[e] == if e.about == p then multiset(events)[e] else 0
  {
    if events == [] {
    } else {
      OfPairIs(events[..|events| - 1], p);
      assert events == events[..|events| - 1] + [events[|events| - 1]];
    }
  }

  // ------------------------------------------------------------------- order-free form

  function Members(pairs: seq<Pair>): set<Pair> { set p | p in pairs }

  ghost predicate Distinct(pairs: seq<Pair>) { forall i, j :: 0 <= i < j < |pairs| ==> pairs[i] != pairs[j] }

  function ClosedIn(m: map<Pair, Outcome>, s: set<Pair>, t: Tier): map<Pair, int> {
    map p | p in s && p in m && m[p].Closed? && m[p].tier == t :: m[p].duration
  }

  function OpenIn(m: map<Pair, Outcome>, s: set<Pair>): set<OpenViolation> {
    set p | p in s && p in m && m[p].StillOpen? :: Violation(m, p)
  }

  function Violation(m: map<Pair, Outcome>, p: Pair): OpenViolation
    requires p in m && m[p].StillOpen?
  {
    OpenViolation(p, m[p].tier, m[p].age, m[p].overSla)
  }

  function LateIn(m: map<Pair, Outcome>, s: set<Pair>): set<Pair> {
    set p | p in s && p in m && m[p].StillOpen? && m[p].overSla
  }

  /** The pairs before the last one, and that one is new. */
  lemma DropLast(pairs: seq<Pair>)
    requires pairs != [] && Distinct(pairs)
    ensures Distinct(pairs[..|pairs| - 1]) && pairs[|pairs| - 1] !in Members(pairs[..|pairs| - 1])
    ensures Members(pairs) == Members(pairs[..|pairs| - 1]) + {pairs[|pairs| - 1]}
  {
    assert pairs == pairs[..|pairs| - 1] + [pairs[|pairs| - 1]];
  }

  lemma ClosedGrows(m: map<Pair, Outcome>, s: set<Pair>, p: Pair, t: Tier)
    requires p in m && p !in s
    ensures p !in ClosedIn(m, s, t)
    ensures ClosedIn(m, s + {p}, t) ==
            if m[p].Closed? && m[p].tier == t then ClosedIn(m, s, t)[p := m[p].duration] else ClosedIn(m, s, t)
  {
  }

  lemma OpenGrows(m: map<Pair, Outcome>, s: set<Pair>, p: Pair)
    requires p in m && p !in s
    ensures m[p].StillOpen? ==> Violation(m, p) !in OpenIn(m, s) && OpenIn(m, s + {p}) == OpenIn(m, s) + {Violation(m, p)}
    ensures !m[p].StillOpen? ==> OpenIn(m, s + {p}) == OpenIn(m, s)
  {
  }

  lemma LateGrows(m: map<Pair, Outcome>, s: set<Pair>, p: Pair)
    requires p in m && p !in s
    ensures |LateIn(m, s + {p})| == |LateIn(m, s)| + if m[p].StillOpen? && m[p].overSla then 1 else 0
  {
    assert LateIn(m, s + {p}) == LateIn(m, s) + if m[p].StillOpen? && m[p].overSla then {p} else {};
  }

  lemma JudgedGrows(m: map<Pair, Outcome>, s: set<Pair>, p: Pair)
    requires p in m && p !in s
    ensures |Judged(m, s + {p})| == |Judged(m, s)| + if m[p].NeverDetected? then 0 else 1
  {
    assert Judged(m, s + {p}) == Judged(m, s) + if m[p].NeverDetected? then {} else {p};
  }

  ghost predicate DurationsAre(ds: seq<int>, closed: map<Pair, int>) { |ds| == |closed| && Sum(ds) == Total(closed) }

  lemma {:induction false} DurationsAreClosed(m: map<Pair, Outcome>, pairs: seq<Pair>, t: Tier)
    requires Covers(m, pairs) && Distinct(pairs)
    ensures DurationsAre(Durations(m, pairs, t), ClosedIn(m, Members(pairs), t))
  {
    if pairs == [] {
      assert ClosedIn(m, Members(pairs), t) == map[];
    } else {
      var before, p := pairs[..|pairs| - 1], pairs[|pairs| - 1];
      DropLast(pairs);
      DurationsAreClosed(m, before, t);
      OneMoreDuration(m, before, p, t);
      assert before + [p] == pairs;
    }
  }

  lemma OneMoreDuration(m: map<Pair, Outcome>, before: seq<Pair>, p: Pair, t: Tier)
    requires Covers(m, before) && p in m && p !in Members(before)
    requires DurationsAre(Durations(m, before, t), ClosedIn(m, Members(before), t))
    ensures DurationsAre(Durations(m, before + [p], t), ClosedIn(m, Members(before) + {p}, t))
  {
    assert (before + [p])[..|before|] == before;
    ClosedGrows(m, Members(before), p, t);
    if m[p].Closed? && m[p].tier == t {
      TotalInsert(ClosedIn(m, Members(before), t), p, m[p].duration);
      var ds := Durations(m, before, t);
      assert (ds + [m[p].duration])[..|ds|] == ds;
    }
  }

  ghost predicate OpenAre(open: seq<OpenViolation>, vs: set<OpenViolation>, late: set<Pair>) {
    multiset(open) == multiset(vs) && OverSla(open) == |late|
  }

  lemma {:induction false} OpenedAreOpen(m: map<Pair, Outcome>, pairs: seq<Pair>)
    requires Covers(m, pairs) && Distinct(pairs)
    ensures OpenAre(Opened(m, pairs), OpenIn(m, Members(pairs)), LateIn(m, Members(pairs)))
  {
    if pairs == [] {
      assert OpenIn(m, Members(pairs)) == {} && LateIn(m, Members(pairs)) == {};
    } else {
      var before, p := pairs[..|pairs| - 1], pairs[|pairs| - 1];
      DropLast(pairs);
      OpenedAreOpen(m, before);
      OneMoreOpen(m, before, p);
      assert before + [p] == pairs;
    }
  }

  lemma OneMoreOpen(m: map<Pair, Outcome>, before: seq<Pair>, p: Pair)
    requires Covers(m, before) && p in m && p !in Members(before)
    requires OpenAre(Opened(m, before), OpenIn(m, Members(before)), LateIn(m, Members(before)))
    ensures OpenAre(Opened(m, before + [p]), OpenIn(m, Members(before) + {p}), LateIn(m, Members(before) + {p}))
  {
    assert (before + [p])[..|before|] == before;
    OpenGrows(m, Members(before), p);
    LateGrows(m, Members(before), p);
    if m[p].StillOpen? {
      var open := Opened(m, before);
      assert (open + [Violation(m, p)])[..|open|] == open;
    }
  }

  // ---------------------------------------------------------------------- main results

  /** The samples of the four tiers and the open violations are as many as the detected pairs. */
  lemma EveryDetectionIsCounted(events: seq<Event>, now: int)
    ensures var s := SummaryOf(Outcomes(events, now), PairsOf(events));
            s.byTier[Critical].sampleSize + s.byTier[High].sampleSize + s.byTier[Medium].sampleSize
              + s.byTier[Low].sampleSize + |s.open| == |DetectedPairs(events)|
  {
    var m, pairs := Outcomes(events, now), PairsOf(events);
    PairsAreThose(events);
    CountedOnce(m, pairs);
    forall p ensures p in DetectedPairs(events) <==> p in Judged(m, Members(pairs)) {
      OutcomeMeans(events, p, now);
    }
    assert DetectedPairs(events) == Judged(m, Members(pairs));
  }

  function Judged(m: map<Pair, Outcome>, s: set<Pair>): set<Pair> { set p | p in s && p in m && !m[p].NeverDetected? }

  function Counted(m: map<Pair, Outcome>, pairs: seq<Pair>): nat
    requires Covers(m, pairs)
  {
    |Durations(m, pairs, Critical)| + |Durations(m, pairs, High)| + |Durations(m, pairs, Medium)|
    + |Durations(m, pairs, Low)| + |Opened(m, pairs)|
  }

  lemma {:induction false} CountedOnce(m: map<Pair, Outcome>, pairs: seq<Pair>)
    requires Covers(m, pairs) && Distinct(pairs)
    ensures Counted(m, pairs) == |Judged(m, Members(pairs))|
  {
    if pairs == [] {
      assert Judged(m, Members(pairs)) == {};
    } else {
      var before, p := pairs[..|pairs| - 1], pairs[|pairs| - 1];
      DropLast(pairs);
      CountedOnce(m, before);
      OneMoreCounted(m, before, p);
      assert before + [p] == pairs;
      JudgedGrows(m, Members(before), p);
    }
  }

  lemma OneMoreCounted(m: map<Pair, Outcome>, before: seq<Pair>, p: Pair)
    requires Covers(m, before) && p in m
    ensures Counted(m, before + [p]) == Counted(m, before) + if m[p].NeverDetected? then 0 else 1
  {
    assert (before + [p])[..|before|] == before;
  }

  /** Equally early detections of a pair agree on the tier. */
  ghost predicate FirstsAgree(events: seq<Event>) {
    forall p, x, y :: IsFirst(events, p, x) && IsFirst(events, p, y) ==> TierOf(x.severity) == TierOf(y.severity)
  }

  /** A ledger that detects every pair once is of that kind. */
  lemma OnceIsEnough(events: seq<Event>)
    requires DetectedOnce(events)
    ensures FirstsAgree(events)
  {
    forall p, x, y | IsFirst(events, p, x) && IsFirst(events, p, y) ensures x == y {
      var i :| 0 <= i < |events| && events[i] == x;
      var j :| 0 <= j < |events| && events[j] == y;
    }
  }

  ghost predicate SameReport(s: Summary, s': Summary) {
    s.byTier == s'.byTier && s.openOverSla == s'.openOverSla && multiset(s.open) == multiset(s'.open)
  }

  /** Averages, counts and the open violations do not depend on the order of the events. */
  lemma OrderOfEventsIsIrrelevant(events: seq<Event>, events': seq<Event>, now: int)
    requires FirstsAgree(events) && multiset(events) == multiset(events')
    ensures SameReport(SummaryOf(Outcomes(events, now), PairsOf(events)), SummaryOf(Outcomes(events', now), PairsOf(events')))
  {
    OutcomesAgree(events, events', now);
    PairsAgree(events, events');
    PairsAreThose(events);
    PairsAreThose(events');
    ReportIsOrderFree(Outcomes(events, now), PairsOf(events), PairsOf(events'));
  }

  lemma ReportIsOrderFree(m: map<Pair, Outcome>, pairs: seq<Pair>, pairs': seq<Pair>)
    requires Covers(m, pairs) && Covers(m, pairs') && Distinct(pairs) && Distinct(pairs') && Members(pairs) == Members(pairs')
    ensures SameReport(SummaryOf(m, pairs), SummaryOf(m, pairs'))
  {
    OpenedAreOpen(m, pairs);
    OpenedAreOpen(m, pairs');
    forall t ensures Summarised(t, Durations(m, pairs, t)) == Summarised(t, Durations(m, pairs', t)) {
      DurationsAreClosed(m, pairs, t);
      DurationsAreClosed(m, pairs', t);
      assert Durations(m, pairs, t) == [] <==> Durations(m, pairs', t) == [];
    }
  }

  lemma PairsAgree(events: seq<Event>, events': seq<Event>)
    requires multiset(events) == multiset(events')
    ensures Members(PairsOf(events)) == Members(PairsOf(events'))
  {
    PairsAreThose(events);
    PairsAreThose(events');
    SameElements(events, events');
  }

  lemma SameElements(events: seq<Event>, events': seq<Event>)
    requires multiset(events) == multiset(events')
    ensures forall e :: e in events <==> e in events'
  {
    assert forall e :: e in events <==> e in multiset(events);
    assert forall e :: e in events' <==> e in multiset(events');
  }

  lemma OutcomesAgree(events: seq<Event>, events': seq<Event>, now: int)
    requires FirstsAgree(events) && multiset(events) == multiset(events')
    ensures Outcomes(events, now) == Outcomes(events', now)
  {
    PairsAgree(events, events');
    assert forall p :: p in PairsOf(events) <==> p in Members(PairsOf(events));
    assert forall p :: p in PairsOf(events') <==> p in Members(PairsOf(events'));
    forall p ensures OutcomeOf(OfPair(events, p), now) == OutcomeOf(OfPair(events', p), now) {
      OutcomeAgrees(events, events', p, now);
    }
  }

  lemma OutcomeAgrees(events: seq<Event>, events': seq<Event>, p: Pair, now: int)
    requires FirstsAgree(events) && multiset(events) == multiset(events')
    ensures OutcomeOf(OfPair(events, p), now) == OutcomeOf(OfPair(events', p), now)
  {
    SameElements(events, events');
    OutcomeMeans(events, p, now);
    OutcomeMeans(events', p, now);
    assert forall d :: IsFirst(events, p, d) <==> IsFirst(events', p, d);
    assert forall d :: Unapproved(events, p, d) <==> Unapproved(events', p, d);
    assert forall d, a :: IsNextApproval(events, p, d, a) <==> IsNextApproval(events', p, d, a);
  }

  // ------------------------------------------------------- when the order does matter

  ghost predicate IsOrderFree(events: seq<Event>, now: int) {
    forall es: seq<Event> :: multiset(es) == multiset(events) ==> Outcomes(es, now) == Outcomes(events, now)
  }

  /** The outcomes of a ledger are independent of its order exactly when equally early
    * detections of a pair agree on the tier. */
  lemma OrderFreeExactly(events: seq<Event>, now: int)
    ensures IsOrderFree(events, now) <==> FirstsAgree(events)
  {
    if FirstsAgree(events) {
      forall es: seq<Event> | multiset(es) == multiset(events) ensures Outcomes(es, now) == Outcomes(events, now) {
        OutcomesAgree(events, es, now);
      }
    } else {
      var p, x, y :| IsFirst(events, p, x) && IsFirst(events, p, y) && TierOf(x.severity) != TierOf(y.severity);
      var es := TakesTheFront(events, p, x, now);
      var es' := TakesTheFront(events, p, y, now);
      assert Outcomes(es, now)[p].tier != Outcomes(es', now)[p].tier;
    }
  }

  /** Moved to the front, a first detection decides the tier. */
  lemma TakesTheFront(events: seq<Event>, p: Pair, x: Event, now: int) returns (es: seq<Event>)
    requires IsFirst(events, p, x)
    ensures multiset(es) == multiset(events) && IsTier(es, p, TierOf(x.severity), now)
  {
    es := MoveToFront(events, x);
    SameElements(events, es);
    assert IsFirst(es, p, x);
    FrontDecides(es, p, now);
  }

  ghost predicate IsTier(es: seq<Event>, p: Pair, t: Tier, now: int) {
    p in Outcomes(es, now) && !Outcomes(es, now)[p].NeverDetected? && Outcomes(es, now)[p].tier == t
  }

  lemma MoveToFront(events: seq<Event>, x: Event) returns (es: seq<Event>)
    requires x in events
    ensures multiset(es) == multiset(events) && es != [] && es[0] == x
  {
    var i :| 0 <= i < |events| && events[i] == x;
    es := [x] + (events[..i] + events[i + 1..]);
    assert events == events[..i] + [x] + events[i + 1..];
  }

  lemma FrontDecides(es: seq<Event>, p: Pair, now: int)
    requires es != [] && IsFirst(es, p, es[0])
    ensures IsTier(es, p, TierOf(es[0].severity), now)
  {
    PairsAreThose(es);
    OfPairHead(es, p);
    OfPairIs(es, p);
    HeadIsEarliest(OfPair(es, p));
  }

  lemma {:induction false} OfPairHead(es: seq<Event>, p: Pair)
    requires es != [] && es[0].about == p
    ensures OfPair(es, p) != [] && OfPair(es, p)[0] == es[0]
  {
    if |es| > 1 {
      OfPairHead(es[..|es| - 1], p);
    } else {
      assert OfPair(es[..0], p) == [];
    }
  }

  lemma {:induction false} HeadIsEarliest(mine: seq<Event>)
    requires mine != [] && IsDetection(mine[0])
    requires forall e :: e in mine && IsDetection(e) ==> mine[0].at <= e.at
    ensures Earliest(mine, IsDetection, When) == Some(mine[0])
  {
    if |mine| > 1 {
      HeadIsEarliest(mine[..|mine| - 1]);
      assert mine[|mine| - 1] in mine;
    } else {
      assert Earliest(mine[..0], IsDetection, When) == None;
    }
  }
}
