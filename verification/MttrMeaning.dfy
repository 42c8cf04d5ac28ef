/** The remediation-time summary in hours, averages and severities as written. */
module MttrMeaning {
  import opened Common
  import opened Ledger
  import opened Mttr
  import opened MttrLaws
  import opened Sums
  import ScoreMeaning
  import Text

  // ------------------------------------------------------------------------- averages

  lemma {:induction false} TotalBounds(m: map<Pair, int>, low: int, high: int)
    requires forall k :: k in m ==> low <= m[k] <= high
    ensures low * |m| <= Total(m) <= high * |m|
    decreases |m|
  {
    if m != map[] {
      var k :| k in m;
      TotalRemove(m, k);
      TotalBounds(m - {k}, low, high);
      assert (m - {k})[k := m[k]] == m;
      OneMore(low, high, |m - {k}|, m[k], Total(m - {k}));
    }
  }

  lemma OneMore(low: int, high: int, n: nat, x: int, rest: int)
    requires low <= x <= high && low * n <= rest <= high * n
    ensures low * (n + 1) <= x + rest <= high * (n + 1)
  {
    assert low * (n + 1) == low * n + low && high * (n + 1) == high * n + high;
  }

  /** The keys of least and of greatest value. */
  lemma {:induction false} Extremes(m: map<Pair, int>) returns (p: Pair, q: Pair)
    requires m != map[]
    ensures p in m && q in m && forall k :: k in m ==> m[p] <= m[k] <= m[q]
    decreases |m|
  {
    var k :| k in m;
    var rest := m - {k};
    assert rest[k := m[k]] == m;
    if rest == map[] {
      p, q := k, k;
    } else {
      p, q := Extremes(rest);
      if m[k] < m[p] { p := k; }
      if m[k] > m[q] { q := k; }
    }
  }

  ghost predicate IsMean(mean: real, closed: map<Pair, int>) {
    && mean * |closed| as real == Total(closed) as real
    && (exists p :: p in closed && closed[p] as real <= mean)
    && (exists q :: q in closed && mean <= closed[q] as real)
  }

  lemma MeanIs(xs: seq<int>, closed: map<Pair, int>)
    requires DurationsAre(xs, closed)
    ensures Mean(xs).None? <==> closed == map[]
    ensures Mean(xs).Some? ==> IsMean(Mean(xs).value * 1_000_000.0, closed)
  {
    assert closed == map[] <==> |closed| == 0;
    if xs != [] {
      Divided(Sum(xs) as real, 1_000_000.0, |closed| as real);
      IsMeanIf(Mean(xs).value * 1_000_000.0, closed);
    }
  }

  lemma IsMeanIf(mean: real, closed: map<Pair, int>)
    requires closed != map[] && mean * |closed| as real == Total(closed) as real
    ensures IsMean(mean, closed)
  {
    var p, q := Extremes(closed);
    MeanBetween(closed, closed[p], closed[q], mean);
  }

  lemma MeanBetween(m: map<Pair, int>, low: int, high: int, mean: real)
    requires m != map[] && mean * |m| as real == Total(m) as real
    requires forall k :: k in m ==> low <= m[k] <= high
    ensures low as real <= mean <= high as real
  {
    assert |m| > 0;
    TotalBounds(m, low, high);
    Between(low, high, |m|, Total(m), mean);
  }

  lemma Between(low: int, high: int, n: int, total: int, average: real)
    requires n > 0 && low * n <= total <= high * n && average * n as real == total as real
    ensures low as real <= average <= high as real
  {
    Product(low, n);
    Product(high, n);
    Cancelled(low as real, average, n as real);
    Cancelled(average, high as real, n as real);
  }

  lemma Product(x: int, y: int)
    ensures x as real * y as real == (x * y) as real
  {
  }

  lemma Divided(x: real, a: real, b: real)
    requires a > 0.0 && b > 0.0
    ensures x / a / b * a * b == x
  {
    var y := x / a / b;
    assert y * b == x / a;
    assert y * a * b == (y * b) * a;
  }

  lemma Cancelled(x: real, y: real, t: real)
    requires t > 0.0 && x * t <= y * t
    ensures x <= y
  {
    assert (y - x) * t >= 0.0;
  }

  // ------------------------------------------------------------- tiers and their targets

  /** The tier of a severity in any letter case; what is missing or unknown is MEDIUM. */
  function Named(severity: Option<string>): Tier {
    if severity.None? then Medium
    else
      var s := Text.Lower(severity.value);
      if s == "critical" then Critical else if s == "high" then High else if s == "low" then Low else Medium
  }

  lemma TierIsNamed(severity: Option<string>)
    ensures TierOf(severity) == Named(severity)
  {
    if severity.Some? {
      ScoreMeaning.UpperIsLower(severity.value, "CRITICAL", "critical");
      ScoreMeaning.UpperIsLower(severity.value, "HIGH", "high");
      ScoreMeaning.UpperIsLower(severity.value, "LOW", "low");
    }
  }

  /** How many hours a violation of a tier may stay open. */
  function Hours(t: Tier): int { match t case Critical => 8 case High => 120 case Medium => 720 case Low => 720 }

  // ------------------------------------------------------------------------ main results

  /** a approves p after d, and no approval of p after d is earlier. */
  ghost predicate FirstApproval(events: seq<Event>, p: Pair, d: Event, a: Event) {
    && a in events && a.about == p && a.kind == Approved && a.at > d.at
    && forall x :: x in events && x.about == p && x.kind == Approved && x.at > d.at ==> a.at <= x.at
  }

  ghost predicate NeverApproved(events: seq<Event>, p: Pair, d: Event) {
    forall x :: x in events && x.about == p && x.kind == Approved ==> x.at <= d.at
  }

  lemma NextIsFirst(events: seq<Event>, p: Pair, d: Event, a: Event)
    ensures IsNextApproval(events, p, d, a) ==> FirstApproval(events, p, d, a)
    ensures Unapproved(events, p, d) ==> NeverApproved(events, p, d)
  {
    assert forall x :: Approves(x, d) <==> x.kind == Approved && x.at > d.at;
  }

  /** The pair's earliest detection d is of this tier, and it was first approved this long after. */
  ghost predicate ClosedAfter(events: seq<Event>, p: Pair, t: Tier, microseconds: int) {
    exists d, a :: IsFirst(events, p, d) && FirstApproval(events, p, d, a) && HasTier(d, t) && microseconds == a.at - d.at
  }

  predicate HasTier(d: Event, t: Tier) { Named(d.severity) == t }

  lemma TierHas(d: Event)
    ensures HasTier(d, TierOf(d.severity))
  {
    TierIsNamed(d.severity);
  }

  lemma OutcomeCloses(events: seq<Event>, p: Pair, now: int)
    requires OutcomeOf(OfPair(events, p), now).Closed?
    ensures var o := OutcomeOf(OfPair(events, p), now); ClosedAfter(events, p, o.tier, o.duration)
  {
    OutcomeMeans(events, p, now);
    var o := OutcomeOf(OfPair(events, p), now);
    var d, a :| IsFirst(events, p, d) && IsNextApproval(events, p, d, a) && o == Closed(TierOf(d.severity), a.at - d.at);
    NextIsFirst(events, p, d, a);
    TierHas(d);
  }

  /** The closed pairs of a tier and how long they took. */
  ghost function ClosedOf(events: seq<Event>, now: int, t: Tier): map<Pair, int> {
    ClosedIn(Outcomes(events, now), Members(PairsOf(events)), t)
  }

  ghost predicate ClosedAre(events: seq<Event>, t: Tier, closed: map<Pair, int>) {
    forall p :: p in closed ==> ClosedAfter(events, p, t, closed[p])
  }

  lemma ClosedPairs(events: seq<Event>, now: int, t: Tier)
    ensures ClosedAre(events, t, ClosedOf(events, now, t))
  {
    forall p | p in ClosedOf(events, now, t) ensures ClosedAfter(events, p, t, ClosedOf(events, now, t)[p]) {
      OutcomeCloses(events, p, now);
    }
  }

  lemma SummaryAt(m: map<Pair, Outcome>, pairs: seq<Pair>, t: Tier)
    requires Covers(m, pairs)
    ensures t in SummaryOf(m, pairs).byTier
    ensures SummaryOf(m, pairs).byTier[t] == Summarised(t, Durations(m, pairs, t))
  {
    assert TIERS[0] == Critical && TIERS[1] == High && TIERS[2] == Medium && TIERS[3] == Low;
  }

  /** What a tier's line of the summary says of its closed pairs, whose durations are microseconds. */
  ghost predicate Reads(line: TierSummary, t: Tier, closed: map<Pair, int>) {
    && line.sampleSize == |closed| && line.target == Hours(t) * 3_600_000_000
    && (line.average.None? <==> closed == map[])
    && (line.average.Some? ==> IsMean(line.average.value * 1_000_000.0, closed))
  }

  lemma LineReads(t: Tier, xs: seq<int>, closed: map<Pair, int>)
    requires DurationsAre(xs, closed)
    ensures Reads(Summarised(t, xs), t, closed)
  {
    MeanIs(xs, closed);
  }

  /** For each tier the average, in seconds, times the sample size is the sum of the closed
    * durations, and lies between the shortest and the longest; there is none exactly if nothing
    * is closed. */
  lemma AverageIsMean(events: seq<Event>, now: int, t: Tier)
    ensures ClosedAre(events, t, ClosedOf(events, now, t))
    ensures var s := SummaryOf(Outcomes(events, now), PairsOf(events));
            t in s.byTier && Reads(s.byTier[t], t, ClosedOf(events, now, t))
  {
    var m, pairs := Outcomes(events, now), PairsOf(events);
    PairsAreThose(events);
    DurationsAreClosed(m, pairs, t);
    SummaryAt(m, pairs, t);
    LineReads(t, Durations(m, pairs, t), ClosedOf(events, now, t));
    ClosedPairs(events, now, t);
  }

  /** What an open violation says: the age of the earliest detection, its tier, and whether that is
    * more hours than the tier allows. */
  ghost predicate OpenSince(events: seq<Event>, now: int, v: OpenViolation) {
    && (v.overSla <==> v.age > Hours(v.tier) * 3_600_000_000)
    && exists d :: IsFirst(events, v.about, d) && NeverApproved(events, v.about, d) && HasTier(d, v.tier) && v.age == now - d.at
  }

  lemma OutcomeIsOpen(events: seq<Event>, p: Pair, now: int)
    requires OutcomeOf(OfPair(events, p), now).StillOpen?
    ensures var o := OutcomeOf(OfPair(events, p), now); OpenSince(events, now, OpenViolation(p, o.tier, o.age, o.overSla))
  {
    OutcomeMeans(events, p, now);
    var o := OutcomeOf(OfPair(events, p), now);
    var d :| IsFirst(events, p, d) && Unapproved(events, p, d) && o.tier == TierOf(d.severity) && o.age == now - d.at;
    NextIsFirst(events, p, d, d);
    TierHas(d);
  }

  lemma OpenViolationsAreOpen(events: seq<Event>, now: int, v: OpenViolation)
    requires v in SummaryOf(Outcomes(events, now), PairsOf(events)).open
    ensures OpenSince(events, now, v)
  {
    var m, pairs := Outcomes(events, now), PairsOf(events);
    PairsAreThose(events);
    OpenedAreOpen(m, pairs);
    assert v in multiset(Opened(m, pairs));
    assert v in OpenIn(m, Members(pairs));
    OutcomeIsOpen(events, v.about, now);
  }
}
