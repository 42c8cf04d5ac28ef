/** Parsing one chunk: a baseline or an unknown block, and a cache of what passed the gates. */
module ChunkParser {
  import opened Common
  import Merge

  type Key = string

  /** A normalised answer of the model with the signals recorded in it. */
  datatype Candidate = Candidate(content: Merge.Value, meanLogprob: Option<real>, fidelity: Option<real>)

  datatype Settings = Settings(uncertainty: real, reverse: bool, fidelity: real)

  datatype Reason = LowTokenConfidence | LowFidelity | Raised
  datatype UnknownBlock = UnknownBlock(reason: Reason, candidate: Option<Merge.Value>)

  /** What parsing one chunk returns. */
  datatype Parse = Parse(baseline: Option<Merge.Chunk>, unknown: Option<UnknownBlock>)

  /** The model's answer: it raises, or its answer cannot be normalised, or it can. */
  datatype Answer =
    | NoAnswer
    | Malformed(raw: Merge.Value)
    | Answered(raw: Merge.Value, content: Merge.Value, meanLogprob: Option<real>)

  /** A baseline as far as the schema's validation makes it. */
  datatype Validated = Validated(tree: Merge.Value, confidence: real, unknownBlocks: nat)

  /** One chunk with what lies outside: whether the cache can be read and written, the model's
    * answer, the fidelity of its reverse translation if that can be had, and the validation of
    * a candidate once the job's device identity is laid over it. */
  datatype Ask = Ask(key: Key, readable: bool, writable: bool, answer: Answer, fidelity: Option<real>,
                     validate: Merge.Value -> Option<Validated>)

  type Cache = map<Key, Candidate>

  function Unknown(reason: Reason, candidate: Option<Merge.Value>): Parse {
    Parse(None, Some(UnknownBlock(reason, candidate)))
  }

  predicate Below(signal: Option<real>, threshold: real) { signal.Some? && signal.value < threshold }

  /** The identity is laid over the candidate and the schema decides. */
  function Finish(c: Candidate, raw: Merge.Value, validate: Merge.Value -> Option<Validated>): Parse {
    match validate(c.content)
    case Some(v) => Parse(Some(Merge.Chunk(v.tree, v.confidence, v.unknownBlocks, c.meanLogprob, c.fidelity)), None)
    case None => Unknown(Raised, Some(raw))
  }

  function MeasuredFidelity(s: Settings, a: Ask): Option<real> { if s.reverse then a.fidelity else None }

  function ParseTx(cache: Cache, s: Settings, a: Ask): (Cache, Parse) {
    if a.readable && a.key in cache then (cache, Finish(cache[a.key], cache[a.key].content, a.validate))
    else
      match a.answer
      case NoAnswer => (cache, Unknown(Raised, None))
      case Malformed(raw) => (cache, Unknown(Raised, Some(raw)))
      case Answered(raw, content, meanLogprob) =>
        if Below(meanLogprob, s.uncertainty) then (cache, Unknown(LowTokenConfidence, Some(raw)))
        else if Below(MeasuredFidelity(s, a), s.fidelity) then (cache, Unknown(LowFidelity, Some(raw)))
        else
          var c := Candidate(content, meanLogprob, MeasuredFidelity(s, a));
          (if a.writable then cache[a.key := c] else cache, Finish(c, raw, a.validate))
  }

  function ParseAll(cache: Cache, s: Settings, asks: seq<Ask>): (r: (Cache, seq<Parse>))
    ensures |r.1| == |asks|
  {
    if asks == [] then (cache, [])
    else
      var (before, parses) := ParseAll(cache, s, asks[..|asks| - 1]);
      var (after, parse) := ParseTx(before, s, asks[|asks| - 1]);
      (after, parses + [parse])
  }

  class Parser {
    const settings: Settings
    var cache: Cache

    constructor (settings: Settings)
      ensures this.settings == settings && cache == map[]
    {
      this.settings, cache := settings, map[];
    }

    method ParseChunk(a: Ask) returns (parse: Parse)
      modifies this
      ensures (cache, parse) == ParseTx(old(cache), settings, a)
    {
      if a.readable && a.key in cache {
        return Finish(cache[a.key], cache[a.key].content, a.validate);
      }
      match a.answer {
        case NoAnswer =>
          parse := Unknown(Raised, None);
        case Malformed(raw) =>
          parse := Unknown(Raised, Some(raw));
        case Answered(raw, content, meanLogprob) =>
          if meanLogprob.Some? && meanLogprob.value < settings.uncertainty {
            return Unknown(LowTokenConfidence, Some(raw));
          }
          var fidelity: Option<real> := None;
          if settings.reverse {
            fidelity := a.fidelity;
            if fidelity.Some? && fidelity.value < settings.fidelity {
              return Unknown(LowFidelity, Some(raw));
            }
          }
          var candidate := Candidate(content, meanLogprob, fidelity);
          if a.writable {
            cache := cache[a.key := candidate];
          }
          parse := Finish(candidate, raw, a.validate);
      }
    }
  }

  // -------------------------------------------------------------------- guarantees

  /** A baseline or an unknown block, never both and never neither. */
  predicate IsOne(p: Parse) { p.baseline.Some? <==> p.unknown.None? }

  lemma {:induction false} EachIsOne(cache: Cache, s: Settings, asks: seq<Ask>)
    ensures forall i :: 0 <= i < |asks| ==> IsOne(ParseAll(cache, s, asks).1[i])
  {
    if asks == [] {
    } else {
      EachIsOne(cache, s, asks[..|asks| - 1]);
    }
  }

  predicate Passes(s: Settings, meanLogprob: Option<real>, fidelity: Option<real>) {
    !Below(meanLogprob, s.uncertainty) && !Below(fidelity, s.fidelity)
  }

  ghost predicate AllPassed(cache: Cache, s: Settings) {
    forall k :: k in cache ==> Passes(s, cache[k].meanLogprob, cache[k].fidelity)
  }

  lemma ParsePasses(cache: Cache, s: Settings, a: Ask)
    requires AllPassed(cache, s)
    ensures AllPassed(ParseTx(cache, s, a).0, s)
    ensures var b := ParseTx(cache, s, a).1.baseline; b.Some? ==> Passes(s, b.value.meanLogprob, b.value.fidelity)
  {
  }

  /** Whatever is parsed, from the model or the cache, no baseline is below either gate. */
  lemma {:induction false} BaselinesPass(s: Settings, asks: seq<Ask>)
    ensures AllPassed(ParseAll(map[], s, asks).0, s)
    ensures forall i :: 0 <= i < |asks| && ParseAll(map[], s, asks).1[i].baseline.Some? ==>
              var b := ParseAll(map[], s, asks).1[i].baseline.value; Passes(s, b.meanLogprob, b.fidelity)
  {
    if asks == [] {
    } else {
      var before := asks[..|asks| - 1];
      BaselinesPass(s, before);
      ParsePasses(ParseAll(map[], s, before).0, s, asks[|asks| - 1]);
    }
  }

  /** A chunk that fails leaves a candidate behind exactly if it was not read from the cache,
    * passed both gates, could be stored, and then was refused by the schema. */
  lemma FailureIsCachedExactly(cache: Cache, s: Settings, a: Ask)
    requires ParseTx(cache, s, a).1.unknown.Some? && a.key !in cache
    ensures a.key in ParseTx(cache, s, a).0 <==>
            && a.writable && a.answer.Answered? && Passes(s, a.answer.meanLogprob, MeasuredFidelity(s, a))
            && a.validate(a.answer.content).None?
  {
  }

  /** From then on that chunk fails, whatever the model would answer, as long as the cache is
    * there: the candidate that the schema refuses is never replaced. */
  lemma {:induction false} CachedFailureStays(cache: Cache, s: Settings, k: Key, asks: seq<Ask>)
    requires k in cache
    requires forall i :: 0 <= i < |asks| && asks[i].key == k ==> asks[i].readable && asks[i].validate(cache[k].content).None?
    ensures var r := ParseAll(cache, s, asks);
            && k in r.0 && r.0[k] == cache[k]
            && forall i :: 0 <= i < |asks| && asks[i].key == k ==> r.1[i] == Unknown(Raised, Some(cache[k].content))
  {
    if asks == [] {
    } else {
      CachedFailureStays(cache, s, k, asks[..|asks| - 1]);
    }
  }

  /** What is cached is not asked for again. */
  lemma HitIsIndependent(cache: Cache, s: Settings, a: Ask, b: Ask)
    requires a.key in cache && a.readable && b == a.(answer := b.answer, fidelity := b.fidelity, writable := b.writable)
    ensures ParseTx(cache, s, a) == ParseTx(cache, s, b)
  {
  }

  /** A signal that was measured reaches its threshold. */
  predicate Reaches(signal: Option<real>, threshold: real) { signal == None || signal.value >= threshold }

  /** The candidate a chunk is judged by: the cached one, or an answer that reaches both thresholds. */
  function Judged(cache: Cache, s: Settings, a: Ask): Option<Candidate> {
    if a.readable && a.key in cache then Some(cache[a.key])
    else if a.answer.Answered? && Reaches(a.answer.meanLogprob, s.uncertainty) && (s.reverse ==> Reaches(a.fidelity, s.fidelity))
    then Some(Candidate(a.answer.content, a.answer.meanLogprob, if s.reverse then a.fidelity else None))
    else None
  }

  /** A chunk yields a baseline exactly if there is such a candidate and the schema accepts it, and
    * the baseline is what the schema makes of it, with the candidate's signals. */
  lemma ParsedExactly(cache: Cache, s: Settings, a: Ask)
    ensures var b, c := ParseTx(cache, s, a).1.baseline, Judged(cache, s, a);
            && (b.Some? <==> c.Some? && a.validate(c.value.content).Some?)
            && (b.Some? ==>
                  var v := a.validate(c.value.content).value;
                  && b.value.tree == v.tree && b.value.confidence == v.confidence && b.value.unknownBlocks == v.unknownBlocks
                  && b.value.meanLogprob == c.value.meanLogprob && b.value.fidelity == c.value.fidelity)
  {
  }

  /** The cache gains exactly the candidates that were judged and not read from it, each under its
    * chunk's key, as long as it can be written; nothing else in it changes. */
  lemma CachedExactly(cache: Cache, s: Settings, a: Ask)
    ensures var c := Judged(cache, s, a);
            ParseTx(cache, s, a).0
            == if c.Some? && !(a.readable && a.key in cache) && a.writable then cache[a.key := c.value] else cache
  {
  }

  /** And it fails for a reason: the first gate that was missed, or what was raised. */
  lemma FailsExactly(cache: Cache, s: Settings, a: Ask)
    requires ParseTx(cache, s, a).1.unknown.Some? && !(a.readable && a.key in cache)
    ensures var u := ParseTx(cache, s, a).1.unknown.value;
            && (u.reason == LowTokenConfidence <==> a.answer.Answered? && !Reaches(a.answer.meanLogprob, s.uncertainty))
            && (u.reason == LowFidelity <==>
                  && a.answer.Answered? && Reaches(a.answer.meanLogprob, s.uncertainty)
                  && s.reverse && !Reaches(a.fidelity, s.fidelity))
            && u.candidate == if a.answer.NoAnswer? then None else Some(a.answer.raw)
  {
  }
}
