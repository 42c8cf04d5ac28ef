/** Merging the baselines of one device's chunks into one. */
module Merge {
  import opened Common
  import Text

  /** A baseline as the dictionary the program merges. */
  datatype Value =
    | Null
    | Bool(b: bool)
    | Num(n: real)
    | Str(s: string)
    | List(items: seq<Value>)
    | Dict(fields: map<string, Value>)

  type Path = seq<string>

  predicate IsUnknown(v: Value) {
    v.Null? || (v.Str? && Text.Lower(Text.Strip(v.s)) in {"unknown", "none", ""})
  }

  predicate IsNegative(v: Value) { v == Bool(false) || v == Str("DISABLED") }

  // ---------------------------------------------------- what one merge step means

  function Extend(items: seq<Value>, more: seq<Value>): seq<Value> {
    if more == [] then items
    else
      var longer := Extend(items, more[..|more| - 1]);
      var last := more[|more| - 1];
      if last in longer then longer else longer + [last]
  }

  function MergeValue(t: Value, v: Value): Value
    decreases v, 2
  {
    if IsUnknown(v) then t
    else if IsUnknown(t) then v
    else if t.Dict? && v.Dict? then Dict(MergeFields(t.fields, v, v.fields.Keys))
    else if t.List? && v.List? then List(Extend(t.items, v.items))
    else if t != v && IsNegative(t) && !IsNegative(v) then v
    else t
  }

  function MergeField(t: map<string, Value>, v: Value, k: string): Value
    requires v.Dict? && k in v.fields
    decreases v, 0
  {
    if k in t then MergeValue(t[k], v.fields[k]) else v.fields[k]
  }

  /** The target once the keys `done` of the incoming dictionary are merged. */
  function MergeFields(t: map<string, Value>, v: Value, done: set<string>): map<string, Value>
    requires v.Dict? && done <= v.fields.Keys
    decreases v, 1
  {
    map k | k in t.Keys + done :: if k in done then MergeField(t, v, k) else t[k]
  }

  /** The paths, below `path`, at which the merge reports a conflict. */
  function Conflicts(t: Value, v: Value, path: Path): set<Path>
    decreases v, 1
  {
    if IsUnknown(v) || IsUnknown(t) then {}
    else if t.Dict? && v.Dict? then FieldConflicts(t.fields, v, path, v.fields.Keys)
    else if t.List? && v.List? then {}
    else if t != v then {path}
    else {}
  }

  function FieldConflicts(t: map<string, Value>, v: Value, path: Path, done: set<string>): set<Path>
    requires v.Dict? && done <= v.fields.Keys
    decreases v, 0
  {
    set k, q | k in done && k in t && q in Conflicts(t[k], v.fields[k], path + [k]) :: q
  }

  function MergeAll(baselines: seq<Value>): Value
    requires baselines != []
  {
    if |baselines| == 1 then baselines[0]
    else MergeValue(MergeAll(baselines[..|baselines| - 1]), baselines[|baselines| - 1])
  }

  /** Every conflict the fold reports, one multiset per merged baseline. */
  function AllConflicts(baselines: seq<Value>): multiset<Path>
    requires baselines != []
  {
    if |baselines| == 1 then multiset{}
    else
      var before := baselines[..|baselines| - 1];
      AllConflicts(before) + multiset(Conflicts(MergeAll(before), baselines[|baselines| - 1], []))
  }

  // ---------------------------------------------------------- the device's fields

  /** A chunk's baseline with the numbers the merge reads from its device field. */
  datatype Chunk = Chunk(tree: Value, confidence: real, unknownBlocks: nat, meanLogprob: Option<real>, fidelity: Option<real>)
  datatype DeviceContext =
    DeviceContext(vendor: Value, os: Value, osVersion: Value, hardwareModel: Value, hostname: Option<Value>)
  datatype MergeError = ZeroBaselines
  datatype Merged = Merged(tree: Value, confidence: real, unknownBlocks: nat, meanLogprob: Option<real>, fidelity: Option<real>)

  function Trees(chunks: seq<Chunk>): seq<Value> {
    seq(|chunks|, i requires 0 <= i < |chunks| => chunks[i].tree)
  }

  /** The job's device identity replaces what the chunks said. */
  function Overridden(tree: Value, context: Option<DeviceContext>): Value {
    if context.Some? && tree.Dict? && "device" in tree.fields && tree.fields["device"].Dict? then
      var c := context.value;
      var named := if c.hostname.Some? then map["raw_hostname" := c.hostname.value] else map[];
      var device := tree.fields["device"].fields
                    + map["detected_vendor" := c.vendor, "detected_os" := c.os,
                          "detected_os_version" := c.osVersion, "detected_hardware_model" := c.hardwareModel]
                    + named;
      Dict(tree.fields["device" := Dict(device)])
    else tree
  }

  function AtLeastZero(x: real): real { if x < 0.0 then 0.0 else x }
  function AtMostOne(x: real): real { if x > 1.0 then 1.0 else x }

  function MinConfidence(chunks: seq<Chunk>): (least: real)
    requires chunks != []
    ensures forall c :: c in chunks ==> least <= c.confidence
    ensures exists c :: c in chunks && c.confidence == least
  {
    var last := chunks[|chunks| - 1];
    if |chunks| == 1 then last.confidence
    else
      var before := chunks[..|chunks| - 1];
      assert chunks == before + [last];
      var least := MinConfidence(before);
      if last.confidence < least then last.confidence else least
  }

  function UnknownBlocks(chunks: seq<Chunk>): nat {
    if chunks == [] then 0 else UnknownBlocks(chunks[..|chunks| - 1]) + chunks[|chunks| - 1].unknownBlocks
  }

  function Logprobs(chunks: seq<Chunk>): seq<Option<real>> {
    seq(|chunks|, i requires 0 <= i < |chunks| => chunks[i].meanLogprob)
  }

  function Fidelities(chunks: seq<Chunk>): seq<Option<real>> {
    seq(|chunks|, i requires 0 <= i < |chunks| => chunks[i].fidelity)
  }

  /** The weakest measured signal; unmeasured only if no chunk measured it. */
  function Weakest(signals: seq<Option<real>>): (least: Option<real>)
    ensures least.None? <==> forall v :: v in signals ==> v.None?
    ensures least.Some? ==> least in signals && forall v :: v in signals && v.Some? ==> least.value <= v.value
  {
    if signals == [] then None
    else
      var before, last := signals[..|signals| - 1], signals[|signals| - 1];
      assert signals == before + [last];
      var least := Weakest(before);
      if last.Some? && (least.None? || last.value < least.value) then last else least
  }

  function Penalised(least: real, conflicts: nat, penalty: real): real {
    AtMostOne(AtLeastZero(if conflicts > 0 then AtLeastZero(least - penalty * conflicts as real) else least))
  }

  function MergedChunks(chunks: seq<Chunk>, conflicts: nat, penalty: real, context: Option<DeviceContext>): Merged
    requires chunks != []
  {
    Merged(Overridden(MergeAll(Trees(chunks)), context),
           Penalised(MinConfidence(chunks), conflicts, penalty),
           UnknownBlocks(chunks), Weakest(Logprobs(chunks)), Weakest(Fidelities(chunks)))
  }

  // ------------------------------------------------------------------ the merger

  lemma {:induction false} ConflictsAreBelow(t: Value, v: Value, path: Path)
    ensures forall q :: q in Conflicts(t, v, path) ==> path <= q
    decreases v
  {
    if !IsUnknown(v) && !IsUnknown(t) && t.Dict? && v.Dict? {
      forall q | q in Conflicts(t, v, path) ensures path <= q {
        assert q in FieldConflicts(t.fields, v, path, v.fields.Keys);
        var k :| k in v.fields && k in t.fields && q in Conflicts(t.fields[k], v.fields[k], path + [k]);
        ConflictsAreBelow(t.fields[k], v.fields[k], path + [k]);
      }
    }
  }

  /** Another key adds conflicts of its own. */
  lemma AnotherKey(t: map<string, Value>, v: Value, path: Path, done: set<string>, k: string)
    requires v.Dict? && done <= v.fields.Keys && k in v.fields && k !in done && k in t
    ensures var here := Conflicts(t[k], v.fields[k], path + [k]);
            multiset(FieldConflicts(t, v, path, done + {k})) == multiset(FieldConflicts(t, v, path, done)) + multiset(here)
  {
    var here := Conflicts(t[k], v.fields[k], path + [k]);
    var before, after := FieldConflicts(t, v, path, done), FieldConflicts(t, v, path, done + {k});
    assert after == before + here;
    ConflictsAreBelow(t[k], v.fields[k], path + [k]);
    forall q | q in before ensures q !in here {
      var j :| j in done && j in t && q in Conflicts(t[j], v.fields[j], path + [j]);
      ConflictsAreBelow(t[j], v.fields[j], path + [j]);
      assert q[|path|] == j;
    }
  }

  lemma NothingMerged(t: map<string, Value>, v: Value, path: Path)
    requires v.Dict?
    ensures MergeFields(t, v, {}) == t
    ensures FieldConflicts(t, v, path, {}) == {}
  {
  }

  lemma MergedKey(t: map<string, Value>, v: Value, path: Path, done: set<string>, k: string)
    requires v.Dict? && done <= v.fields.Keys && k in v.fields && k !in done
    ensures MergeFields(t, v, done + {k}) == MergeFields(t, v, done)[k := MergeField(t, v, k)]
    ensures k in t ==> k in MergeFields(t, v, done) && MergeFields(t, v, done)[k] == t[k]
    ensures k !in t ==> FieldConflicts(t, v, path, done + {k}) == FieldConflicts(t, v, path, done)
  {
  }

  class Merger {
    var conflicts: seq<Path>

    constructor ()
      ensures conflicts == []
    {
      conflicts := [];
    }

    method ExtendList(items: seq<Value>, more: seq<Value>) returns (longer: seq<Value>)
      ensures longer == Extend(items, more)
    {
      longer := items;
      for i := 0 to |more|
        invariant longer == Extend(items, more[..i])
      {
        assert more[..i + 1][..i] == more[..i];
        if more[i] !in longer {
          longer := longer + [more[i]];
        }
      }
      assert more[..|more|] == more;
    }

    /** Keys are taken in any order; the program takes them in insertion order. */
    method MergeDict(target: map<string, Value>, incoming: Value, path: Path) returns (merged: map<string, Value>)
      requires incoming.Dict?
      modifies this
      ensures merged == MergeFields(target, incoming, incoming.fields.Keys)
      ensures multiset(conflicts) == old(multiset(conflicts))
                + multiset(FieldConflicts(target, incoming, path, incoming.fields.Keys))
      decreases incoming, 2
    {
      NothingMerged(target, incoming, path);
      merged := MergeKeys(target, incoming, incoming.fields.Keys, path, multiset(conflicts));
    }

    /** The loop of MergeDict; `keys` are all the keys of the incoming dictionary. */
    method MergeKeys(target: map<string, Value>, incoming: Value, keys: set<string>, path: Path, ghost before: multiset<Path>)
      returns (merged: map<string, Value>)
      requires incoming.Dict? && keys == incoming.fields.Keys
      requires target == MergeFields(target, incoming, {})
      requires multiset(conflicts) == before + multiset(FieldConflicts(target, incoming, path, {}))
      modifies this
      ensures merged == MergeFields(target, incoming, keys)
      ensures multiset(conflicts) == before + multiset(FieldConflicts(target, incoming, path, keys))
      decreases incoming, 1
    {
      merged := target;
      ghost var done: set<string> := {};
      var todo := keys;
      while todo != {}
        invariant todo <= keys && done == keys - todo
        invariant merged == MergeFields(target, incoming, done)
        invariant multiset(conflicts) == before + multiset(FieldConflicts(target, incoming, path, done))
        decreases todo
      {
        var key :| key in todo;
        merged := MergeKey(merged, target, incoming, done, key, path, before);
        todo, done := todo - {key}, done + {key};
      }
      assert done == keys;
    }

    /** One pass of the loop. */
    method MergeKey(merged: map<string, Value>, ghost target: map<string, Value>, incoming: Value,
                    ghost done: set<string>, key: string, path: Path, ghost before: multiset<Path>)
      returns (result: map<string, Value>)
      requires incoming.Dict? && done <= incoming.fields.Keys && key in incoming.fields && key !in done
      requires merged == MergeFields(target, incoming, done)
      requires multiset(conflicts) == before + multiset(FieldConflicts(target, incoming, path, done))
      modifies this
      ensures result == MergeFields(target, incoming, done + {key})
      ensures multiset(conflicts) == before + multiset(FieldConflicts(target, incoming, path, done + {key}))
      decreases incoming, 0
    {
      MergedKey(target, incoming, path, done, key);
      var value := incoming.fields[key];
      if key !in merged {
        return merged[key := value];
      }
      AnotherKey(target, incoming, path, done, key);
      var value' := MergeShared(merged[key], value, path + [key]);
      result := merged[key := value'];
    }

    /** The branches of the loop body for a key both sides have. */
    method MergeShared(current: Value, value: Value, here: Path) returns (result: Value)
      modifies this
      ensures result == MergeValue(current, value)
      ensures multiset(conflicts) == old(multiset(conflicts)) + multiset(Conflicts(current, value, here))
      decreases value, 3
    {
      result := current;
      if IsUnknown(value) {
        return;
      }
      if IsUnknown(current) {
        return value;
      }
      if value.Dict? && current.Dict? {
        var inner := MergeDict(current.fields, value, here);
        result := Dict(inner);
      } else if value.List? && current.List? {
        var longer := ExtendList(current.items, value.items);
        result := List(longer);
      } else if current != value {
        if IsNegative(current) && !IsNegative(value) {
          result := value;
        }
        conflicts := conflicts + [here];
      }
    }

    /** The fold of merge_baselines, before the device fields are overridden. */
    method Fold(baselines: seq<Value>) returns (merged: Value)
      requires baselines != [] && conflicts == []
      requires forall i :: 0 <= i < |baselines| ==> baselines[i].Dict?
      modifies this
      ensures merged == MergeAll(baselines) && merged.Dict?
      ensures multiset(conflicts) == AllConflicts(baselines)
    {
      merged := baselines[0];
      assert baselines[..1] == [baselines[0]];
      for i := 1 to |baselines|
        invariant merged.Dict? && merged == MergeAll(baselines[..i])
        invariant multiset(conflicts) == AllConflicts(baselines[..i])
      {
        assert baselines[..i + 1][..i] == baselines[..i];
        var fields := MergeDict(merged.fields, baselines[i], []);
        merged := Dict(fields);
      }
      assert baselines[..|baselines|] == baselines;
    }

    method WeakestSignals(chunks: seq<Chunk>) returns (confidence: real, unknown: nat)
      requires chunks != []
      ensures confidence == MinConfidence(chunks) && unknown == UnknownBlocks(chunks)
    {
      confidence, unknown := chunks[0].confidence, chunks[0].unknownBlocks;
      for i := 1 to |chunks|
        invariant confidence == MinConfidence(chunks[..i])
        invariant unknown == UnknownBlocks(chunks[..i])
      {
        assert chunks[..i + 1][..i] == chunks[..i];
        if chunks[i].confidence < confidence { confidence := chunks[i].confidence; }
        unknown := unknown + chunks[i].unknownBlocks;
      }
      assert chunks[..|chunks|] == chunks;
    }

    method WeakestMeasured(signals: seq<Option<real>>) returns (least: Option<real>)
      ensures least == Weakest(signals)
    {
      least := None;
      for i := 0 to |signals|
        invariant least == Weakest(signals[..i])
      {
        assert signals[..i + 1][..i] == signals[..i];
        if signals[i].Some? && (least.None? || signals[i].value < least.value) { least := signals[i]; }
      }
      assert signals[..|signals|] == signals;
    }

    /** merge_baselines: the fold, the device fields of the job's context, and the
      * weakest signal of any chunk. */
    method MergeBaselines(chunks: seq<Chunk>, penalty: real, context: Option<DeviceContext>)
      returns (r: Result<Merged, MergeError>)
      requires conflicts == []
      requires forall i :: 0 <= i < |chunks| ==> chunks[i].tree.Dict?
      modifies this
      ensures r.Err? <==> chunks == []
      ensures chunks != [] ==>
                && r == Ok(MergedChunks(chunks, |conflicts|, penalty, context))
                && multiset(conflicts) == AllConflicts(Trees(chunks))
    {
      if chunks == [] {
        return Err(ZeroBaselines);
      }
      var tree := Fold(Trees(chunks));
      var confidence, unknown := WeakestSignals(chunks);
      var meanLogprob := WeakestMeasured(Logprobs(chunks));
      var fidelity := WeakestMeasured(Fidelities(chunks));
      var overridden := Overridden(tree, context);
      return Ok(Merged(overridden, Penalised(confidence, |conflicts|, penalty), unknown, meanLogprob, fidelity));
    }
  }
}
