/** When exactly the remediation-time summary depends on the order of the ledger. */
module MttrOrder {
  import opened Ledger
  import opened Mttr
  import opened MttrLaws

  function Report(events: seq<Event>, now: int): Summary { SummaryOf(Outcomes(events, now), PairsOf(events)) }

  ghost predicate SummaryIsOrderFree(events: seq<Event>, now: int) {
    forall es: seq<Event> :: multiset(es) == multiset(events) ==> SameReport(Report(es, now), Report(events, now))
  }

  // ----------------------------------------------------- moving one event to the front

  lemma {:induction false} OfPairAppend(some: seq<Event>, other: seq<Event>, q: Pair)
    ensures OfPair(some + other, q) == OfPair(some, q) + OfPair(other, q)
  {
    if other == [] {
      assert some + other == some;
    } else {
      var n := |other| - 1;
      assert (some + other)[..|some| + n] == some + other[..n];
      OfPairAppend(some, other[..n], q);
    }
  }

  /** The events of the other pairs keep their order. */
  lemma OthersUnmoved(events: seq<Event>, i: nat, q: Pair)
    requires i < |events| && events[i].about != q
    ensures OfPair([events[i]] + (events[..i] + events[i + 1..]), q) == OfPair(events, q)
  {
    var front, x, back := events[..i], [events[i]], events[i + 1..];
    assert events == front + x + back;
    assert x[..0] == [];
    OfPairAppend(front, back, q);
    OfPairAppend(front + x, back, q);
    OfPairAppend(front, x, q);
    OfPairAppend(x, front + back, q);
  }

  /** With a first detection of p moved to the front, p has its tier and all else is as before. */
  lemma InFrontFor(events: seq<Event>, p: Pair, x: Event, now: int) returns (es: seq<Event>)
    requires IsFirst(events, p, x)
    ensures multiset(es) == multiset(events) && IsTier(es, p, TierOf(x.severity), now)
    ensures forall q :: q != p ==> OfPair(es, q) == OfPair(events, q)
  {
    var i :| 0 <= i < |events| && events[i] == x;
    es := [x] + (events[..i] + events[i + 1..]);
    assert events == events[..i] + [x] + events[i + 1..];
    SameElements(events, es);
    assert IsFirst(es, p, x);
    FrontDecides(es, p, now);
    forall q | q != p ensures OfPair(es, q) == OfPair(events, q) { OthersUnmoved(events, i, q); }
  }

  // --------------------------------------------------------- one pair of another tier

  /** The outcomes differ in the tier of p only. */
  ghost predicate DifferInTier(m: map<Pair, Outcome>, m': map<Pair, Outcome>, p: Pair) {
    && m.Keys == m'.Keys && p in m
    && (forall q :: q in m && q != p ==> m[q] == m'[q])
    && !m[p].NeverDetected? && !m'[p].NeverDetected?
    && (m[p].Closed? <==> m'[p].Closed?) && m[p].tier != m'[p].tier
  }

  lemma ClosedDiffer(m: map<Pair, Outcome>, m': map<Pair, Outcome>, s: set<Pair>, p: Pair)
    requires DifferInTier(m, m', p) && p in s && m[p].Closed?
    ensures |ClosedIn(m, s, m[p].tier)| == |ClosedIn(m', s, m[p].tier)| + 1
  {
    var t := m[p].tier;
    assert ClosedIn(m, s, t) == ClosedIn(m', s, t)[p := m[p].duration];
    assert p !in ClosedIn(m', s, t);
  }

  lemma OpenDiffer(m: map<Pair, Outcome>, m': map<Pair, Outcome>, s: set<Pair>, p: Pair)
    requires DifferInTier(m, m', p) && p in s && m[p].StillOpen?
    ensures Violation(m, p) in OpenIn(m, s) && Violation(m, p) !in OpenIn(m', s)
  {
  }

  lemma ReportsDiffer(m: map<Pair, Outcome>, pairs: seq<Pair>, m': map<Pair, Outcome>, pairs': seq<Pair>, p: Pair)
    requires Covers(m, pairs) && Covers(m', pairs') && Distinct(pairs) && Distinct(pairs')
    requires Members(pairs) == Members(pairs') && p in Members(pairs) && DifferInTier(m, m', p)
    ensures !SameReport(SummaryOf(m, pairs), SummaryOf(m', pairs'))
  {
    var t, s := m[p].tier, Members(pairs);
    if m[p].Closed? {
      ClosedDiffer(m, m', s, p);
      DurationsAreClosed(m, pairs, t);
      DurationsAreClosed(m', pairs', t);
      assert SummaryOf(m, pairs).byTier[t].sampleSize != SummaryOf(m', pairs').byTier[t].sampleSize;
    } else {
      OpenDiffer(m, m', s, p);
      OpenedAreOpen(m, pairs);
      OpenedAreOpen(m', pairs');
      assert Violation(m, p) in multiset(Opened(m, pairs)) && Violation(m, p) !in multiset(Opened(m', pairs'));
    }
  }

  // ---------------------------------------------------------------------- main result

  lemma SameEnd(es: seq<Event>, es': seq<Event>, p: Pair, now: int)
    requires multiset(es) == multiset(es') && p in DetectedPairs(es)
    ensures var o, o' := OutcomeOf(OfPair(es, p), now), OutcomeOf(OfPair(es', p), now);
            !o.NeverDetected? && !o'.NeverDetected? && (o.Closed? <==> o'.Closed?)
  {
    SameElements(es, es');
    OutcomeMeans(es, p, now);
    OutcomeMeans(es', p, now);
    assert forall d :: IsFirst(es, p, d) <==> IsFirst(es', p, d);
    assert forall d :: Unapproved(es, p, d) <==> Unapproved(es', p, d);
    forall d, d' | IsFirst(es, p, d) && IsFirst(es, p, d') ensures d.at == d'.at {}
  }

  lemma OrdersDiffer(es: seq<Event>, es': seq<Event>, p: Pair, t: Tier, t': Tier, now: int)
    requires multiset(es) == multiset(es') && t != t' && IsTier(es, p, t, now) && IsTier(es', p, t', now)
    requires forall q :: q != p ==> OfPair(es, q) == OfPair(es', q)
    ensures !SameReport(Report(es, now), Report(es', now))
  {
    PairsAgree(es, es');
    PairsAreThose(es);
    PairsAreThose(es');
    OutcomeMeans(es, p, now);
    SameEnd(es, es', p, now);
    KeysAreMembers(es, now);
    KeysAreMembers(es', now);
    ReportsDiffer(Outcomes(es, now), PairsOf(es), Outcomes(es', now), PairsOf(es'), p);
  }

  lemma KeysAreMembers(es: seq<Event>, now: int)
    ensures Outcomes(es, now).Keys == Members(PairsOf(es))
  {
  }

  lemma SameReports(a: Summary, b: Summary, c: Summary)
    requires SameReport(a, c) && SameReport(b, c)
    ensures SameReport(a, b)
  {
  }

  /** The averages, counts and open violations are independent of the order of the events exactly
    * when equally early detections of a pair agree on the tier. */
  lemma SummaryIsOrderFreeExactly(events: seq<Event>, now: int)
    ensures SummaryIsOrderFree(events, now) <==> FirstsAgree(events)
  {
    if FirstsAgree(events) {
      forall es: seq<Event> | multiset(es) == multiset(events) ensures SameReport(Report(es, now), Report(events, now)) {
        OrderOfEventsIsIrrelevant(events, es, now);
      }
    } else {
      var p, x, y :| IsFirst(events, p, x) && IsFirst(events, p, y) && TierOf(x.severity) != TierOf(y.severity);
      var es := InFrontFor(events, p, x, now);
      var es' := InFrontFor(events, p, y, now);
      OrdersDiffer(es, es', p, TierOf(x.severity), TierOf(y.severity), now);
      if SummaryIsOrderFree(events, now) { SameReports(Report(es, now), Report(es', now), Report(events, now)); }
    }
  }
}
