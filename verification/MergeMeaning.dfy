/** What a merged baseline says, in the words of the chunks. */
module MergeMeaning {
  import opened Common
  import opened Merge
  import opened MergeTheorems
  import Text

  // ------------------------------------------------------------- what says nothing

  /** The text is this word in any letter case, with blanks around it or not. */
  ghost predicate Spells(s: string, word: string) {
    exists a, b :: Text.IsPadded(s, a, b) && Text.Lower(s[a..b]) == word
  }

  /** Null, unknown, none and nothing but blanks say nothing. */
  ghost predicate SaysNothing(v: Value) {
    v == Null || (v.Str? && (Spells(v.s, "unknown") || Spells(v.s, "none") || Spells(v.s, "")))
  }

  predicate IsLetters(w: string) { forall i :: 0 <= i < |w| ==> 'a' <= w[i] <= 'z' }

  /** Two ways to cut off blanks that leave no blank at an end, or nothing. */
  lemma SameCore(s: string, a: int, b: int, c: int, d: int)
    requires Text.IsPadded(s, a, b) && Text.IsPadded(s, c, d)
    requires a < b ==> !Text.IsSpace(s[a]) && !Text.IsSpace(s[b - 1])
    requires forall i :: c <= i < d ==> !Text.IsSpace(s[i])
    ensures s[a..b] == s[c..d]
  {
    if c < d {
      assert !Text.IsSpace(s[c]) && !Text.IsSpace(s[d - 1]);
      assert a <= c && d <= b;
    }
    if a < b {
      assert c <= a < d && c <= b - 1 < d;
    }
  }

  /** Trimming finds the word, and nothing else. */
  lemma StripsTo(s: string, word: string)
    requires IsLetters(word)
    ensures Text.Lower(Text.Strip(s)) == word <==> Spells(s, word)
  {
    var a, b := Text.StripIs(s);
    if Spells(s, word) {
      var c, d :| Text.IsPadded(s, c, d) && Text.Lower(s[c..d]) == word;
      forall i | c <= i < d ensures !Text.IsSpace(s[i]) { assert Text.Lower(s[c..d])[i - c] == Text.LowerChar(s[i]); }
      SameCore(s, a, b, c, d);
    }
  }

  /** The merge skips exactly what says nothing. */
  lemma UnknownExactly(v: Value)
    ensures IsUnknown(v) <==> SaysNothing(v)
  {
    if v.Str? {
      StripsTo(v.s, "unknown");
      StripsTo(v.s, "none");
      StripsTo(v.s, "");
    }
  }

  // ---------------------------------------------------------------- who prevails

  /** A chunk says this at p. */
  predicate Says(b: Value, p: Path, v: Value) { At(b, p) == Some(v) }

  ghost predicate Silent(b: Value, p: Path) { At(b, p).Some? ==> SaysNothing(At(b, p).value) }

  ghost predicate SomeSays(baselines: seq<Value>, p: Path, v: Value) {
    exists i :: 0 <= i < |baselines| && Says(baselines[i], p, v)
  }

  /** Every chunk that says anything at p says one of these two. */
  ghost predicate OneOf(baselines: seq<Value>, p: Path, v: Value, w: Value) {
    forall i :: 0 <= i < |baselines| ==> Silent(baselines[i], p) || Says(baselines[i], p, v) || Says(baselines[i], p, w)
  }

  lemma ScalarThere(baselines: seq<Value>, p: Path, i: nat, v: Value)
    requires SameShaped(baselines) && i < |baselines| && Says(baselines[i], p, v) && KindOf(v) == Scalar
    ensures Present(baselines, p) != [] && KindOf(Present(baselines, p)[0]) == Scalar
    ensures v in Present(baselines, p)
  {
    PresentFrom(baselines, p);
    PresentKinds(baselines, p);
    assert Present(baselines, p)[0] in Present(baselines, p);
  }

  /** What is present at p is what some chunk says there. */
  lemma PresentSaid(baselines: seq<Value>, p: Path, v: Value)
    ensures v in Present(baselines, p) <==> SomeSays(baselines, p, v)
  {
    PresentFrom(baselines, p);
    if v in Present(baselines, p) {
      var i :| 0 <= i < |baselines| && At(baselines[i], p) == Some(v);
      assert Says(baselines[i], p, v);
    }
  }

  lemma PresentOfTwo(baselines: seq<Value>, p: Path, v: Value, w: Value)
    requires OneOf(baselines, p, v, w)
    ensures forall x :: x in Present(baselines, p) ==> x == v || x == w || IsUnknown(x)
  {
    forall x | x in Present(baselines, p) ensures x == v || x == w || IsUnknown(x) {
      PresentSaid(baselines, p, x);
      var i :| 0 <= i < |baselines| && Says(baselines[i], p, x);
      UnknownExactly(x);
    }
  }

  /** Of two values the one that is not negative prevails. */
  lemma Prevails(baselines: seq<Value>, p: Path, risky: Value, safe: Value)
    requires baselines != [] && SameShaped(baselines) && OneOf(baselines, p, risky, safe)
    requires risky != safe && KindOf(risky) == KindOf(safe) == Scalar
    requires Positive(risky) && Known(safe) && IsNegative(safe)
    ensures Says(MergeAll(baselines), p, risky) <==> SomeSays(baselines, p, risky)
    ensures Says(MergeAll(baselines), p, safe) <==> SomeSays(baselines, p, safe) && !SomeSays(baselines, p, risky)
  {
    PresentSaid(baselines, p, risky);
    PresentSaid(baselines, p, safe);
    if i :| 0 <= i < |baselines| && (Says(baselines[i], p, risky) || Says(baselines[i], p, safe)) {
      ScalarThere(baselines, p, i, At(baselines[i], p).value);
      ScalarClosedForm(baselines, p);
      PresentOfTwo(baselines, p, risky, safe);
      PickOfTwo(Present(baselines, p), risky, safe);
    } else {
      if Says(MergeAll(baselines), p, risky) || Says(MergeAll(baselines), p, safe) { MergedIsPresent(baselines, p); }
    }
  }

  lemma PickOfTwo(xs: seq<Value>, risky: Value, safe: Value)
    requires xs != [] && Positive(risky) && Known(safe) && IsNegative(safe) && (risky in xs || safe in xs)
    requires forall x :: x in xs ==> x == risky || x == safe || IsUnknown(x)
    ensures Pick(xs) == if risky in xs then risky else safe
  {
    if risky in xs {
      var i :| 0 <= i < |xs| && xs[i] == risky;
      assert Positive(xs[i]);
      var j :| 0 <= j < |xs| && xs[j] == First(xs, Positive).value && Positive(xs[j]);
      assert xs[j] in xs;
    } else {
      var i :| 0 <= i < |xs| && xs[i] == safe;
      assert Known(xs[i]);
      forall j | 0 <= j < |xs| ensures !Positive(xs[j]) { assert xs[j] in xs; }
      var j :| 0 <= j < |xs| && xs[j] == First(xs, Known).value && Known(xs[j]);
      assert xs[j] in xs;
    }
  }

  lemma SwitchesAreKnown()
    ensures Known(Str("ENABLED")) && Known(Str("DISABLED")) && Known(Bool(true)) && Known(Bool(false))
  {
    NegativeIsKnown(Str("DISABLED"));
    var s := "ENABLED";
    assert Text.TrimLeft(s) == s && Text.TrimRight(s) == s;
    assert Text.Lower(s)[0] == 'e';
  }

  /** A feature some chunk found enabled is enabled, whatever the others found and in whatever
    * order; it is disabled only if no chunk found it enabled and one found it disabled. */
  lemma EnabledWins(baselines: seq<Value>, p: Path)
    requires baselines != [] && SameShaped(baselines) && OneOf(baselines, p, Str("ENABLED"), Str("DISABLED"))
    ensures Says(MergeAll(baselines), p, Str("ENABLED")) <==> SomeSays(baselines, p, Str("ENABLED"))
    ensures Says(MergeAll(baselines), p, Str("DISABLED")) <==>
            SomeSays(baselines, p, Str("DISABLED")) && !SomeSays(baselines, p, Str("ENABLED"))
  {
    SwitchesAreKnown();
    assert "ENABLED"[0] != "DISABLED"[0];
    Prevails(baselines, p, Str("ENABLED"), Str("DISABLED"));
  }

  /** The same for a flag that is true or false. */
  lemma TrueWins(baselines: seq<Value>, p: Path)
    requires baselines != [] && SameShaped(baselines) && OneOf(baselines, p, Bool(true), Bool(false))
    ensures Says(MergeAll(baselines), p, Bool(true)) <==> SomeSays(baselines, p, Bool(true))
    ensures Says(MergeAll(baselines), p, Bool(false)) <==>
            SomeSays(baselines, p, Bool(false)) && !SomeSays(baselines, p, Bool(true))
  {
    SwitchesAreKnown();
    Prevails(baselines, p, Bool(true), Bool(false));
  }

  ghost predicate Yields(b: Value, p: Path) {
    Silent(b, p) || Says(b, p, Bool(false)) || Says(b, p, Str("DISABLED"))
  }

  /** The first chunk that says anything but false or DISABLED decides, whatever comes later: a
    * number is never given up, zero included. */
  lemma FirstFirmWordStays(baselines: seq<Value>, p: Path, i: nat, v: Value)
    requires SameShaped(baselines) && i < |baselines| && Says(baselines[i], p, v)
    requires KindOf(v) == Scalar && !SaysNothing(v) && v != Bool(false) && v != Str("DISABLED")
    requires forall j :: 0 <= j < i ==> Yields(baselines[j], p)
    ensures Says(MergeAll(baselines), p, v)
  {
    ScalarThere(baselines, p, i, v);
    ScalarClosedForm(baselines, p);
    UnknownExactly(v);
    forall j | 0 <= j < i && At(baselines[j], p).Some? ensures !Positive(At(baselines[j], p).value) {
      assert Yields(baselines[j], p);
      UnknownExactly(At(baselines[j], p).value);
    }
    FirstFound(baselines, p, i, v);
  }

  lemma {:induction false} PresentPrefix(baselines: seq<Value>, p: Path, i: nat)
    requires i <= |baselines|
    ensures Present(baselines[..i], p) <= Present(baselines, p)
    decreases |baselines|
  {
    if i == |baselines| {
      assert baselines[..i] == baselines;
    } else {
      var before := baselines[..|baselines| - 1];
      assert before[..i] == baselines[..i];
      PresentPrefix(before, p, i);
    }
  }

  lemma FirstFound(baselines: seq<Value>, p: Path, i: nat, v: Value)
    requires i < |baselines| && Says(baselines[i], p, v) && Positive(v)
    requires forall j :: 0 <= j < i && At(baselines[j], p).Some? ==> !Positive(At(baselines[j], p).value)
    ensures First(Present(baselines, p), Positive) == Some(v)
  {
    var before := baselines[..i];
    assert baselines[..i + 1][..i] == before;
    PresentPrefix(baselines, p, i + 1);
    PresentFrom(before, p);
    var xs, k := Present(baselines, p), |Present(before, p)|;
    assert Present(before, p) + [v] <= xs;
    forall j | 0 <= j < k ensures !Positive(xs[j]) {
      assert xs[j] == Present(before, p)[j] && xs[j] in Present(before, p);
      var l :| 0 <= l < |before| && At(before[l], p) == Some(xs[j]);
      assert before[l] == baselines[l];
    }
    FirstAt(xs, k);
  }

  lemma FirstAt(xs: seq<Value>, k: nat)
    requires k < |xs| && Positive(xs[k]) && forall j :: 0 <= j < k ==> !Positive(xs[j])
    ensures First(xs, Positive) == Some(xs[k])
  {
  }

  // ----------------------------------------------------------- the device's identity

  predicate HasDevice(tree: Value) { tree.Dict? && "device" in tree.fields && tree.fields["device"].Dict? }

  lemma AtWritten(tree: Value, f: string, inner: map<string, Value>, p: Path)
    requires tree.Dict? && |p| >= 2 && p[0] == f && p[1] in inner
    ensures At(Dict(tree.fields[f := Dict(inner)]), p) == At(inner[p[1]], p[2..])
  {
    assert p[1..][0] == p[1] && p[1..][1..] == p[2..];
    assert At(Dict(inner), p[1..]) == At(inner[p[1]], p[2..]);
  }

  lemma OthersStay(tree: Value, f: string, inner: map<string, Value>, p: Path)
    requires tree.Dict? && f in tree.fields && tree.fields[f].Dict? && p != []
    requires p[0] == f ==> |p| >= 2 && (p[1] in inner <==> p[1] in tree.fields[f].fields)
                           && (p[1] in inner ==> inner[p[1]] == tree.fields[f].fields[p[1]])
    ensures At(Dict(tree.fields[f := Dict(inner)]), p) == At(tree, p)
  {
    if p[0] == f { assert p[1..][0] == p[1]; }
  }

  /** The device fields the job decides. */
  function Decided(c: DeviceContext, k: string): Option<Value> {
    if k == "detected_vendor" then Some(c.vendor) else if k == "detected_os" then Some(c.os)
    else if k == "detected_os_version" then Some(c.osVersion)
    else if k == "detected_hardware_model" then Some(c.hardwareModel)
    else if k == "raw_hostname" then c.hostname
    else None
  }

  lemma DeviceOf(tree: Value, c: DeviceContext) returns (device: map<string, Value>)
    requires HasDevice(tree)
    ensures Overridden(tree, Some(c)) == Dict(tree.fields["device" := Dict(device)])
    ensures forall k :: k in device <==> k in tree.fields["device"].fields || Decided(c, k).Some?
    ensures forall k :: k in device && Decided(c, k).Some? ==> device[k] == Decided(c, k).value
    ensures forall k :: k in device && Decided(c, k).None? ==> device[k] == tree.fields["device"].fields[k]
  {
    KeysDiffer();
    device := Overridden(tree, Some(c)).fields["device"].fields;
  }

  /** Vendor, system, version and model are the job's, whatever the chunks say, and so is the
    * hostname if the job has one; nothing else is touched. */
  lemma IdentityIsTheJobs(tree: Value, c: DeviceContext, p: Path)
    requires HasDevice(tree) && p != [] && p != ["device"]
    ensures At(Overridden(tree, Some(c)), p) == if IsDecided(c, p) then At(Decided(c, p[1]).value, p[2..]) else At(tree, p)
  {
    var device := DeviceOf(tree, c);
    if IsDecided(c, p) { AtWritten(tree, "device", device, p); } else { OthersStay(tree, "device", device, p); }
  }

  predicate IsDecided(c: DeviceContext, p: Path) { |p| >= 2 && p[0] == "device" && Decided(c, p[1]).Some? }

  lemma KeysDiffer()
    ensures "detected_vendor" != "detected_os" && "detected_vendor" != "detected_os_version"
    ensures "detected_vendor" != "detected_hardware_model" && "detected_os" != "detected_os_version"
    ensures "detected_os" != "detected_hardware_model" && "detected_os_version" != "detected_hardware_model"
    ensures "raw_hostname" !in {"detected_vendor", "detected_os", "detected_os_version", "detected_hardware_model"}
  {
    assert |"detected_vendor"| == 15 && |"detected_os"| == 11 && |"detected_os_version"| == 19;
    assert |"detected_hardware_model"| == 23 && |"raw_hostname"| == 12;
  }

  /** The penalty is subtracted once per conflict, and the result stays between 0 and 1. */
  lemma PenaltyPerConflict(least: real, conflicts: nat, penalty: real)
    requires 0.0 <= penalty
    ensures 0.0 <= Penalised(least, conflicts, penalty) <= 1.0
    ensures 0.0 <= least - penalty * conflicts as real <= 1.0 ==>
              Penalised(least, conflicts, penalty) == least - penalty * conflicts as real
    ensures least - penalty * conflicts as real <= 0.0 ==> Penalised(least, conflicts, penalty) == 0.0
    ensures least - penalty * conflicts as real >= 1.0 ==> Penalised(least, conflicts, penalty) == 1.0
  {
    assert conflicts == 0 ==> penalty * conflicts as real == 0.0;
  }

  /** Unknown blocks add up over the chunks. */
  lemma {:induction false} UnknownBlocksAddUp(some: seq<Chunk>, other: seq<Chunk>)
    ensures UnknownBlocks(some + other) == UnknownBlocks(some) + UnknownBlocks(other)
    ensures forall c: Chunk :: UnknownBlocks([c]) == c.unknownBlocks
  {
    forall c: Chunk ensures UnknownBlocks([c]) == c.unknownBlocks { assert [c][..0] == []; }
    if other == [] {
      assert some + other == some;
    } else {
      var n := |other| - 1;
      assert (some + other)[..|some| + n] == some + other[..n];
      UnknownBlocksAddUp(some, other[..n]);
    }
  }

  // ------------------------------------------------------------------ the device's numbers

  ghost predicate IsLeast(x: real, chunks: seq<Chunk>) {
    (exists c :: c in chunks && c.confidence == x) && forall c :: c in chunks ==> x <= c.confidence
  }

  /** The least of the measured signals, and none exactly if nothing was measured. */
  ghost predicate IsLeastMeasured(x: Option<real>, signals: seq<Option<real>>) {
    && (x == None <==> forall v :: v in signals ==> v == None)
    && (x != None ==> x in signals && forall v :: v in signals && v != None ==> x.value <= v.value)
  }

  /** The merged confidence is that of the least confident chunk less the penalty of every conflict,
    * and the two signals are the weakest that any chunk measured. */
  lemma MergedExactly(chunks: seq<Chunk>, conflicts: nat, penalty: real, context: Option<DeviceContext>) returns (least: real)
    requires chunks != [] && 0.0 <= penalty
    ensures var m := MergedChunks(chunks, conflicts, penalty, context);
            && IsLeast(least, chunks) && m.confidence == Penalised(least, conflicts, penalty)
            && m.unknownBlocks == UnknownBlocks(chunks) && m.tree == Overridden(MergeAll(Trees(chunks)), context)
            && IsLeastMeasured(m.meanLogprob, Logprobs(chunks)) && IsLeastMeasured(m.fidelity, Fidelities(chunks))
  {
    least := MinConfidence(chunks);
  }
}
