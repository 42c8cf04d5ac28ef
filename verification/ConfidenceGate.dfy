/** What happens to a parsing job: published for evaluation, or put before a human. */
module ConfidenceGate {
  import opened Common
  import opened ChunkParser
  import Merge

  /** The cross-check of the deterministic extractor, computed on its own. */
  datatype CrossCheck = CrossCheck(agreement: Option<real>, disagreements: seq<string>)

  datatype Task =
    | ReceiveUnknownBlock(job: string, chunkIndex: nat)
    | EvaluateBaseline(job: string, baseline: Merge.Value, confidence: real, unknownBlocks: nat, agreement: Option<real>)

  datatype Reason = NoChunksParsed | ConfidenceBelowThreshold
  datatype Review = Review(job: string, reason: Reason)

  datatype Outcome =
    | Submitted(baseline: Merge.Value, confidence: real, unknownBlocks: nat, conflicts: nat)
    | HumanReview(reason: Reason)

  const CONFIDENCE_THRESHOLD: real := 0.60
  const CONFLICT_PENALTY: real := 0.05

  function Baselines(results: seq<Parse>): seq<Merge.Chunk> {
    if results == [] then []
    else
      var last := results[|results| - 1];
      Baselines(results[..|results| - 1]) + if last.baseline.Some? then [last.baseline.value] else []
  }

  function UnknownIndices(results: seq<Parse>): seq<nat> {
    if results == [] then []
    else
      var n := |results| - 1;
      UnknownIndices(results[..n]) + if results[n].unknown.Some? then [n] else []
  }

  function Sum(chunks: seq<Merge.Chunk>): real {
    if chunks == [] then 0.0 else Sum(chunks[..|chunks| - 1]) + chunks[|chunks| - 1].confidence
  }

  function Mean(chunks: seq<Merge.Chunk>): real
    requires chunks != []
  {
    Sum(chunks) / |chunks| as real
  }

  /** The share of the mean that failed chunks leave. */
  function Coverage(unknown: nat, total: nat): real {
    if total > 0 && unknown > 0 then Merge.AtLeastZero(1.0 - 0.50 * (unknown as real / total as real)) else 1.0
  }

  function JobConfidence(mean: real, unknown: nat, total: nat, conflicts: nat): real {
    var covered := mean * Coverage(unknown, total);
    var penalised := if conflicts > 0 then Merge.AtLeastZero(covered - CONFLICT_PENALTY * conflicts as real) else covered;
    Merge.AtMostOne(Merge.AtLeastZero(penalised))
  }

  /** The verdict, with no cross-check among its arguments. */
  function Verdict(results: seq<Parse>, context: Option<Merge.DeviceContext>): Outcome {
    var baselines, unknown := Baselines(results), UnknownIndices(results);
    if baselines == [] then HumanReview(NoChunksParsed)
    else
      var conflicts := |Merge.AllConflicts(Merge.Trees(baselines))|;
      var confidence := JobConfidence(Mean(baselines), |unknown|, |results|, conflicts);
      if confidence < CONFIDENCE_THRESHOLD then HumanReview(ConfidenceBelowThreshold)
      else
        Submitted(Merge.Overridden(Merge.MergeAll(Merge.Trees(baselines)), context), confidence,
                  Merge.UnknownBlocks(baselines) + |unknown|, conflicts)
  }

  function Dispatched(job: string, unknown: seq<nat>): seq<Task> {
    seq(|unknown|, i requires 0 <= i < |unknown| => ReceiveUnknownBlock(job, unknown[i]))
  }

  function Published(job: string, verdict: Outcome, agreement: Option<real>): seq<Task> {
    if verdict.Submitted? then
      [EvaluateBaseline(job, verdict.baseline, verdict.confidence, verdict.unknownBlocks, agreement)]
    else []
  }

  class Worker {
    /** Tasks sent to the other services, and jobs marked for review. */
    var sent: seq<Task>
    var reviews: seq<Review>

    constructor ()
      ensures sent == [] && reviews == []
    {
      sent, reviews := [], [];
    }

    /** What the verdict uses of the merged baseline. */
    method Combine(baselines: seq<Merge.Chunk>, context: Option<Merge.DeviceContext>)
      returns (tree: Merge.Value, unknownBlocks: nat, conflicts: nat)
      requires baselines != [] && forall i :: 0 <= i < |baselines| ==> baselines[i].tree.Dict?
      ensures tree == Merge.Overridden(Merge.MergeAll(Merge.Trees(baselines)), context)
      ensures unknownBlocks == Merge.UnknownBlocks(baselines)
      ensures conflicts == |Merge.AllConflicts(Merge.Trees(baselines))|
    {
      var merger := new Merge.Merger();
      var merged := merger.MergeBaselines(baselines, CONFLICT_PENALTY, context);
      assert |merger.conflicts| == |multiset(merger.conflicts)|;
      tree, unknownBlocks, conflicts := merged.value.tree, merged.value.unknownBlocks, |merger.conflicts|;
    }

    method ProcessConfig(job: string, parser: Parser, asks: seq<Ask>, context: Option<Merge.DeviceContext>, check: CrossCheck)
      returns (outcome: Outcome)
      requires YieldTrees(asks)
      modifies this, parser
      ensures var (cache, results) := ParseAll(old(parser.cache), parser.settings, asks);
              && parser.cache == cache && outcome == Verdict(results, context)
              && sent == old(sent) + Dispatched(job, UnknownIndices(results)) + Published(job, outcome, check.agreement)
              && reviews == old(reviews) + (if outcome.HumanReview? then [Review(job, outcome.reason)] else [])
              && GateHolds(results, sent[|old(sent)|..])
    {
      ghost var results := ParseAll(parser.cache, parser.settings, asks).1;
      GateHoldsOfParsed(job, parser.cache, parser.settings, asks, context, check.agreement);
      var baselines, unknown, total := Collect(parser, asks);
      outcome := Decide(job, results, baselines, unknown, total, |asks|, context, check);
      assert sent[|old(sent)|..] == Sent(job, results, context, check.agreement);
    }

    /** What follows the loop over the chunks. */
    method Decide(job: string, ghost results: seq<Parse>, baselines: seq<Merge.Chunk>, unknown: seq<nat>, total: real,
                  chunks: nat, context: Option<Merge.DeviceContext>, check: CrossCheck)
      returns (outcome: Outcome)
      requires baselines == Baselines(results) && unknown == UnknownIndices(results) && total == Sum(baselines)
      requires chunks == |results| && forall i :: 0 <= i < |baselines| ==> baselines[i].tree.Dict?
      modifies this
      ensures outcome == Verdict(results, context)
      ensures sent == old(sent) + Dispatched(job, UnknownIndices(results)) + Published(job, outcome, check.agreement)
      ensures reviews == old(reviews) + if outcome.HumanReview? then [Review(job, outcome.reason)] else []
    {
      DispatchUnknownBlocks(job, unknown);
      if baselines == [] {
        reviews := reviews + [Review(job, NoChunksParsed)];
        return HumanReview(NoChunksParsed);
      }
      var tree, blocks, conflicts := Combine(baselines, context);
      var confidence := JobConfidence(total / |baselines| as real, |unknown|, chunks, conflicts);
      if confidence < CONFIDENCE_THRESHOLD {
        reviews := reviews + [Review(job, ConfidenceBelowThreshold)];
        return HumanReview(ConfidenceBelowThreshold);
      }
      outcome := Submitted(tree, confidence, blocks + |unknown|, conflicts);
      sent := sent + Published(job, outcome, check.agreement);
    }

    /** The loop over the chunks, in index order. */
    method Collect(parser: Parser, asks: seq<Ask>) returns (baselines: seq<Merge.Chunk>, unknown: seq<nat>, total: real)
      requires YieldTrees(asks)
      modifies parser
      ensures var (cache, results) := ParseAll(old(parser.cache), parser.settings, asks);
              && parser.cache == cache && baselines == Baselines(results) && unknown == UnknownIndices(results)
      ensures total == Sum(baselines) && forall i :: 0 <= i < |baselines| ==> baselines[i].tree.Dict?
    {
      baselines, unknown, total := [], [], 0.0;
      ghost var results: seq<Parse> := [];
      for i := 0 to |asks|
        invariant (parser.cache, results) == ParseAll(old(parser.cache), parser.settings, asks[..i])
        invariant baselines == Baselines(results) && unknown == UnknownIndices(results) && total == Sum(baselines)
        invariant forall j :: 0 <= j < |baselines| ==> baselines[j].tree.Dict?
      {
        assert asks[..i + 1][..i] == asks[..i];
        ghost var known := parser.cache;
        var parse := parser.ParseChunk(asks[i]);
        ParsedTree(known, parser.settings, asks[i]);
        baselines, unknown, total := Add(results, i, baselines, unknown, total, parse);
        results := results + [parse];
      }
      assert asks[..|asks|] == asks;
    }

    /** The two ifs of the loop body. */
    method Add(ghost results: seq<Parse>, i: nat, baselines: seq<Merge.Chunk>, unknown: seq<nat>, total: real, parse: Parse)
      returns (baselines': seq<Merge.Chunk>, unknown': seq<nat>, total': real)
      requires i == |results|
      requires baselines == Baselines(results) && unknown == UnknownIndices(results) && total == Sum(baselines)
      ensures baselines' == Baselines(results + [parse]) && unknown' == UnknownIndices(results + [parse])
      ensures total' == Sum(baselines')
      ensures baselines' == baselines + if parse.baseline.Some? then [parse.baseline.value] else []
    {
      assert (results + [parse])[..i] == results;
      baselines', unknown', total' := baselines, unknown, total;
      if parse.baseline.Some? {
        assert (baselines + [parse.baseline.value])[..|baselines|] == baselines;
        baselines', total' := baselines + [parse.baseline.value], total + parse.baseline.value.confidence;
      }
      if parse.unknown.Some? {
        unknown' := unknown + [i];
      }
    }

    method DispatchUnknownBlocks(job: string, unknown: seq<nat>)
      modifies this`sent
      ensures sent == old(sent) + Dispatched(job, unknown)
    {
      for i := 0 to |unknown|
        invariant sent == old(sent) + Dispatched(job, unknown[..i])
      {
        assert Dispatched(job, unknown[..i + 1]) == Dispatched(job, unknown[..i]) + [ReceiveUnknownBlock(job, unknown[i])];
        sent := sent + [ReceiveUnknownBlock(job, unknown[i])];
      }
      assert unknown[..|unknown|] == unknown;
    }
  }

  /** The schema makes an object of whatever it accepts. */
  ghost predicate YieldTrees(asks: seq<Ask>) {
    forall i, c :: 0 <= i < |asks| && asks[i].validate(c).Some? ==> asks[i].validate(c).value.tree.Dict?
  }

  lemma ParsedTree(cache: Cache, s: Settings, a: Ask)
    requires forall c :: a.validate(c).Some? ==> a.validate(c).value.tree.Dict?
    ensures var p := ParseTx(cache, s, a).1; p.baseline.Some? ==> p.baseline.value.tree.Dict?
  {
  }

  // ------------------------------------------------------------------ guarantees

  ghost predicate AllOne(results: seq<Parse>) { forall i :: 0 <= i < |results| ==> IsOne(results[i]) }

  lemma {:induction false} BaselinesAreParsed(results: seq<Parse>)
    requires AllOne(results)
    ensures |Baselines(results)| + |UnknownIndices(results)| == |results|
    ensures forall c :: c in Baselines(results) ==> exists i :: 0 <= i < |results| && results[i].baseline == Some(c)
  {
    if results == [] {
    } else {
      var before := results[..|results| - 1];
      BaselinesAreParsed(before);
      forall c | c in Baselines(results) ensures exists i :: 0 <= i < |results| && results[i].baseline == Some(c) {
        if c in Baselines(before) {
          var i :| 0 <= i < |before| && before[i].baseline == Some(c);
          assert results[i] == before[i];
        }
      }
    }
  }

  lemma {:induction false} IndicesAreUnparsed(results: seq<Parse>)
    ensures forall i :: i in UnknownIndices(results) <==> 0 <= i < |results| && results[i].unknown.Some?
    ensures forall a, b :: 0 <= a < b < |UnknownIndices(results)| ==> UnknownIndices(results)[a] < UnknownIndices(results)[b]
  {
    if results == [] {
    } else {
      var before := results[..|results| - 1];
      IndicesAreUnparsed(before);
      forall a | 0 <= a < |UnknownIndices(before)| ensures UnknownIndices(before)[a] < |before| {
        assert UnknownIndices(before)[a] in UnknownIndices(before);
      }
    }
  }

  /** Every chunk parsed lands in exactly one place, every unknown block once, whatever the
    * model answers and the cache holds. */
  lemma ChunksArePartitioned(cache: Cache, s: Settings, asks: seq<Ask>)
    ensures var results := ParseAll(cache, s, asks).1;
            && AllOne(results)
            && |Baselines(results)| + |UnknownIndices(results)| == |asks|
            && (forall i :: i in UnknownIndices(results) <==> 0 <= i < |asks| && results[i].unknown.Some?)
            && (forall a, b :: 0 <= a < b < |UnknownIndices(results)| ==> UnknownIndices(results)[a] < UnknownIndices(results)[b])
            && (forall c :: c in Baselines(results) ==> exists i :: 0 <= i < |asks| && results[i].baseline == Some(c))
  {
    EachIsOne(cache, s, asks);
    BaselinesAreParsed(ParseAll(cache, s, asks).1);
    IndicesAreUnparsed(ParseAll(cache, s, asks).1);
  }

  lemma {:induction false} MeanIsBounded(chunks: seq<Merge.Chunk>)
    requires forall c :: c in chunks ==> 0.0 <= c.confidence <= 1.0
    ensures 0.0 <= Sum(chunks) <= |chunks| as real
  {
    if chunks == [] {
    } else {
      var last := chunks[|chunks| - 1];
      assert chunks == chunks[..|chunks| - 1] + [last];
      MeanIsBounded(chunks[..|chunks| - 1]);
      assert last in chunks;
    }
  }

  lemma Product(x: real, y: real)
    requires 0.0 <= x <= 1.0 && 0.0 <= y <= 1.0
    ensures 0.0 <= x * y <= x && x * y <= y
  {
  }

  lemma Ratio(part: nat, whole: nat, bound: real)
    requires part <= whole && whole > 0
    ensures 0.0 <= part as real / whole as real <= 1.0
    ensures part as real / whole as real <= bound <==> part as real <= bound * whole as real
  {
  }

  /** When the gate opens, exactly. */
  lemma GateOpensExactly(mean: real, unknown: nat, total: nat, conflicts: nat)
    requires 0.0 <= mean <= 1.0 && unknown <= total && total > 0
    ensures JobConfidence(mean, unknown, total, conflicts) >= CONFIDENCE_THRESHOLD
            <==> mean * (1.0 - 0.50 * (unknown as real / total as real)) - CONFLICT_PENALTY * conflicts as real
                 >= CONFIDENCE_THRESHOLD
  {
    Ratio(unknown, total, 0.8);
    var r := unknown as real / total as real;
    assert unknown == 0 ==> r == 0.0;
    assert Coverage(unknown, total) == 1.0 - 0.50 * r;
    Product(mean, 1.0 - 0.50 * r);
  }

  lemma OpenGateBounds(mean: real, unknown: nat, total: nat, conflicts: nat)
    requires 0.0 <= mean <= 1.0 && unknown <= total && total > 0
    requires JobConfidence(mean, unknown, total, conflicts) >= CONFIDENCE_THRESHOLD
    ensures mean >= 0.60 && conflicts <= 8
    ensures unknown as real / total as real <= 0.8
  {
    GateOpensExactly(mean, unknown, total, conflicts);
    Ratio(unknown, total, 0.8);
    var y := 1.0 - 0.50 * (unknown as real / total as real);
    Product(mean, y);
    assert mean * y >= CONFIDENCE_THRESHOLD + CONFLICT_PENALTY * conflicts as real;
    assert y >= CONFIDENCE_THRESHOLD;
  }

  lemma MeanInRange(chunks: seq<Merge.Chunk>)
    requires chunks != [] && forall c :: c in chunks ==> 0.0 <= c.confidence <= 1.0
    ensures 0.0 <= Mean(chunks) <= 1.0
  {
    MeanIsBounded(chunks);
  }

  lemma FourFifths(part: nat, whole: nat)
    requires part <= whole && whole > 0 && part as real / whole as real <= 0.8
    ensures 5 * part <= 4 * whole
  {
    Ratio(part, whole, 0.8);
  }

  lemma SubmittedResults(results: seq<Parse>, context: Option<Merge.DeviceContext>)
    requires AllOne(results)
    requires forall c :: c in Baselines(results) ==> 0.0 <= c.confidence <= 1.0
    requires Verdict(results, context).Submitted?
    ensures Baselines(results) != []
    ensures Mean(Baselines(results)) >= 0.60
    ensures 5 * |UnknownIndices(results)| <= 4 * |results|
    ensures Verdict(results, context).conflicts <= 8
    ensures 0.60 <= Verdict(results, context).confidence <= 1.0
  {
    var chunks, unknown, total := Baselines(results), |UnknownIndices(results)|, |results|;
    BaselinesAreParsed(results);
    MeanInRange(chunks);
    OpenGateBounds(Mean(chunks), unknown, total, Verdict(results, context).conflicts);
    FourFifths(unknown, total);
  }

  /** A submitted job has mean chunk confidence at least 0.60, at most four fifths
    * of its chunks failed, and at most eight merge conflicts. */
  lemma SubmittedIsTrustworthy(cache: Cache, s: Settings, asks: seq<Ask>, context: Option<Merge.DeviceContext>)
    requires var results := ParseAll(cache, s, asks).1;
             && (forall c :: c in Baselines(results) ==> 0.0 <= c.confidence <= 1.0)
             && Verdict(results, context).Submitted?
    ensures var results := ParseAll(cache, s, asks).1;
            && Baselines(results) != [] && Mean(Baselines(results)) >= 0.60
            && 5 * |UnknownIndices(results)| <= 4 * |asks|
            && Verdict(results, context).conflicts <= 8
            && 0.60 <= Verdict(results, context).confidence <= 1.0
  {
    EachIsOne(cache, s, asks);
    SubmittedResults(ParseAll(cache, s, asks).1, context);
  }

  // ------------------------------------------------------------ the verdict in numbers

  ghost predicate AreConfident(results: seq<Parse>) {
    forall c :: c in Baselines(results) ==> 0.0 <= c.confidence <= 1.0
  }

  /** The mean of `parsed` confidences, less half the share of failed chunks of it, less a
    * twentieth for every conflict. */
  function Worth(sum: real, parsed: nat, failed: nat, chunks: nat, conflicts: nat): real
    requires parsed > 0 && chunks > 0
  {
    sum / parsed as real * (1.0 - failed as real / (2 * chunks) as real) - conflicts as real / 20.0
  }

  function Reached(results: seq<Parse>): real
    requires Baselines(results) != [] && results != []
  {
    Worth(Sum(Baselines(results)), |Baselines(results)|, |UnknownIndices(results)|, |results|,
          |Merge.AllConflicts(Merge.Trees(Baselines(results)))|)
  }

  /** Some chunk was parsed, and the job reaches 0.60. */
  predicate Passes60(results: seq<Parse>) {
    Baselines(results) != [] && results != [] && Reached(results) >= 0.60
  }

  /** The confidences of two lists of chunks add up. */
  lemma {:induction false} SumsAddUp(some: seq<Merge.Chunk>, other: seq<Merge.Chunk>)
    ensures Sum(some + other) == Sum(some) + Sum(other)
    ensures forall c: Merge.Chunk :: Sum([c]) == c.confidence
  {
    forall c: Merge.Chunk ensures Sum([c]) == c.confidence { assert [c][..0] == []; }
    if other == [] {
      assert some + other == some;
    } else {
      var n := |other| - 1;
      assert (some + other)[..|some| + n] == some + other[..n];
      SumsAddUp(some, other[..n]);
    }
  }

  lemma HalfShare(part: nat, whole: nat)
    requires whole > 0
    ensures part as real / (2 * whole) as real == 0.50 * (part as real / whole as real)
  {
    var a, b := part as real / (2 * whole) as real, part as real / whole as real;
    assert a * (2 * whole) as real == part as real && b * whole as real == part as real;
    assert a * (2 * whole) as real == 2.0 * a * whole as real;
    SameShare(2.0 * a, b, whole as real);
  }

  lemma SameShare(x: real, y: real, t: real)
    requires t > 0.0 && x * t == y * t
    ensures x == y
  {
    assert (x - y) * t == 0.0;
  }

  /** While the number is not negative it is the job's confidence. */
  lemma ConfidenceIs(sum: real, parsed: nat, failed: nat, chunks: nat, conflicts: nat)
    requires parsed > 0 && chunks > 0 && failed <= chunks && 0.0 <= sum / parsed as real <= 1.0
    ensures var x := Worth(sum, parsed, failed, chunks, conflicts);
            JobConfidence(sum / parsed as real, failed, chunks, conflicts) == if x < 0.0 then 0.0 else x
  {
    var mean, r := sum / parsed as real, failed as real / chunks as real;
    Ratio(failed, chunks, 0.8);
    HalfShare(failed, chunks);
    assert failed == 0 ==> r == 0.0;
    assert Coverage(failed, chunks) == 1.0 - 0.50 * r;
    Product(mean, 1.0 - 0.50 * r);
  }

  lemma ReachedIs(results: seq<Parse>)
    requires AllOne(results) && AreConfident(results) && Baselines(results) != [] && results != []
    ensures JobConfidence(Mean(Baselines(results)), |UnknownIndices(results)|, |results|,
                          |Merge.AllConflicts(Merge.Trees(Baselines(results)))|)
            == if Reached(results) < 0.0 then 0.0 else Reached(results)
  {
    BaselinesAreParsed(results);
    MeanInRange(Baselines(results));
    ConfidenceIs(Sum(Baselines(results)), |Baselines(results)|, |UnknownIndices(results)|, |results|,
                 |Merge.AllConflicts(Merge.Trees(Baselines(results)))|);
  }

  /** A job is submitted exactly if some chunk was parsed and it reaches 0.60, and then with that
    * confidence; it is reviewed for want of chunks exactly if none was. */
  lemma SubmittedExactly(results: seq<Parse>, context: Option<Merge.DeviceContext>)
    requires AllOne(results) && AreConfident(results)
    ensures Verdict(results, context).Submitted? <==> Passes60(results)
    ensures Passes60(results) ==> Verdict(results, context).confidence == Reached(results)
    ensures Passes60(results) ==>
              Verdict(results, context).unknownBlocks == Merge.UnknownBlocks(Baselines(results)) + |UnknownIndices(results)|
    ensures Verdict(results, context) == HumanReview(NoChunksParsed) <==> Baselines(results) == []
  {
    if Baselines(results) != [] {
      BaselinesAreParsed(results);
      assert results != [];
      ReachedIs(results);
    }
  }

  /** The tasks sent for a job. */
  function Sent(job: string, results: seq<Parse>, context: Option<Merge.DeviceContext>, agreement: Option<real>): seq<Task> {
    Dispatched(job, UnknownIndices(results)) + Published(job, Verdict(results, context), agreement)
  }

  ghost predicate Evaluates(tasks: seq<Task>) { exists i :: 0 <= i < |tasks| && tasks[i].EvaluateBaseline? }

  /** With confidences between 0 and 1, an evaluation is among the tasks exactly if the job reaches 0.60. */
  ghost predicate GateHolds(results: seq<Parse>, tasks: seq<Task>) {
    AreConfident(results) ==> (Evaluates(tasks) <==> Passes60(results))
  }

  lemma GateHoldsOfParsed(job: string, cache: Cache, s: Settings, asks: seq<Ask>, context: Option<Merge.DeviceContext>,
                          agreement: Option<real>)
    ensures var results := ParseAll(cache, s, asks).1; GateHolds(results, Sent(job, results, context, agreement))
  {
    EachIsOne(cache, s, asks);
    var results := ParseAll(cache, s, asks).1;
    if AreConfident(results) { EvaluatedExactly(job, results, context, agreement); }
  }

  /** An evaluation is asked for exactly if the job reaches 0.60, once and last; it is told what
    * was reached, and every chunk that failed is dispatched before it. */
  lemma EvaluatedExactly(job: string, results: seq<Parse>, context: Option<Merge.DeviceContext>, agreement: Option<real>)
    requires AllOne(results) && AreConfident(results)
    ensures var tasks := Sent(job, results, context, agreement);
            && (Evaluates(tasks) <==> Passes60(results))
            && (forall i :: 0 <= i < |UnknownIndices(results)| ==>
                  i < |tasks| && tasks[i] == ReceiveUnknownBlock(job, UnknownIndices(results)[i]))
            && |tasks| == |UnknownIndices(results)| + (if Passes60(results) then 1 else 0)
            && (Passes60(results) ==>
                  && tasks[|tasks| - 1].EvaluateBaseline? && tasks[|tasks| - 1].job == job
                  && tasks[|tasks| - 1].confidence == Reached(results) && tasks[|tasks| - 1].agreement == agreement
                  && tasks[|tasks| - 1].baseline == Merge.Overridden(Merge.MergeAll(Merge.Trees(Baselines(results))), context))
  {
    SubmittedExactly(results, context);
    var tasks := Sent(job, results, context, agreement);
    if Passes60(results) { assert tasks[|UnknownIndices(results)|].EvaluateBaseline?; }
  }
}
