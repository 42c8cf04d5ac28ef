/** When the confidence penalty of a merge depends on the order of the chunks. */
module MergePenalty {
  import opened Common
  import opened Merge
  import opened MergeTheorems
  import opened MergeConflicts
  import opened Survivors

  /** Every chunk holds a known value that is not negative wherever one of them holds a scalar. */
  ghost predicate AllAffirmed(baselines: seq<Value>) {
    && SameShaped(baselines)
    && forall p, i, j :: 0 <= i < |baselines| && 0 <= j < |baselines| && HoldsScalar(baselines[i], p) ==>
         HoldsScalar(baselines[j], p) && Positive(At(baselines[j], p).value)
  }

  predicate HoldsScalar(b: Value, p: Path) { At(b, p).Some? && KindOf(At(b, p).value) == Scalar }

  /** In how many places, over all these chunks, a chunk disagrees with them. */
  function Distance(b: Value, baselines: seq<Value>): nat {
    if baselines == [] then 0
    else Distance(b, baselines[..|baselines| - 1]) + |Conflicts(b, baselines[|baselines| - 1], [])|
  }

  // ------------------------------------------------------------- the count of one order

  lemma KnownEverywhere(baselines: seq<Value>, p: Path)
    requires baselines != [] && forall i :: 0 <= i < |baselines| ==> KnownScalar(At(baselines[i], p))
    ensures KnownScalar(At(baselines[0], p))
    ensures Knowns(baselines, p) != [] && Knowns(baselines, p)[0] == At(baselines[0], p).value
  {
    Leads(baselines, p);
  }

  lemma {:induction false} KnownNowhere(baselines: seq<Value>, p: Path)
    requires forall i :: 0 <= i < |baselines| ==> !KnownScalar(At(baselines[i], p))
    ensures Knowns(baselines, p) == []
  {
    if baselines == [] {
    } else {
      KnownNowhere(baselines[..|baselines| - 1], p);
    }
  }

  lemma ThenTheFirst(baselines: seq<Value>, i: nat, p: Path)
    requires AllAffirmed(baselines) && i < |baselines| && KnownScalar(At(baselines[i], p))
    ensures KnownScalar(At(baselines[0], p))
  {
    assert HoldsScalar(baselines[i], p);
  }

  /** The first chunk's scalars survive the merge. */
  lemma FirstSurvives(baselines: seq<Value>, p: Path)
    requires baselines != [] && AllAffirmed(baselines)
    ensures KnownScalar(At(MergeAll(baselines), p)) <==> KnownScalar(At(baselines[0], p))
    ensures KnownScalar(At(baselines[0], p)) ==> At(MergeAll(baselines), p) == At(baselines[0], p)
  {
    ConflictsAreClashes(baselines, p);
    if KnownScalar(At(baselines[0], p)) {
      assert HoldsScalar(baselines[0], p);
      KnownEverywhere(baselines, p);
      SurvivorLeads(Knowns(baselines, p), IsNegative);
    } else {
      forall i | 0 <= i < |baselines| ensures !KnownScalar(At(baselines[i], p)) {
        if KnownScalar(At(baselines[i], p)) { ThenTheFirst(baselines, i, p); }
      }
      KnownNowhere(baselines, p);
    }
  }

  lemma SameConflicts(t: Value, u: Value, v: Value)
    requires Compatible(t, v) && Compatible(u, v) && KindOf(t) == KindOf(v) == KindOf(u)
    requires forall p :: Disagree(t, v, p) <==> Disagree(u, v, p)
    ensures Conflicts(t, v, []) == Conflicts(u, v, [])
  {
    forall p ensures p in Conflicts(t, v, []) <==> p in Conflicts(u, v, []) {
      ConflictsDisagree(t, v, [], p);
      ConflictsDisagree(u, v, [], p);
      assert [] + p == p;
    }
  }

  lemma AffirmedBefore(baselines: seq<Value>)
    requires baselines != [] && AllAffirmed(baselines)
    ensures AllAffirmed(baselines[..|baselines| - 1])
  {
    var before := baselines[..|baselines| - 1];
    assert forall i :: 0 <= i < |before| ==> before[i] == baselines[i];
  }

  lemma StepConflicts(baselines: seq<Value>)
    requires |baselines| > 1 && AllAffirmed(baselines)
    ensures Conflicts(MergeAll(baselines[..|baselines| - 1]), baselines[|baselines| - 1], [])
            == Conflicts(baselines[0], baselines[|baselines| - 1], [])
  {
    var before, v := baselines[..|baselines| - 1], baselines[|baselines| - 1];
    ShapeStep(baselines);
    AffirmedBefore(baselines);
    forall p ensures Disagree(MergeAll(before), v, p) <==> Disagree(baselines[0], v, p) {
      FirstSurvives(before, p);
    }
    SameConflicts(MergeAll(before), baselines[0], v);
  }

  lemma NoSelfConflict(b: Value)
    ensures Conflicts(b, b, []) == {}
  {
    forall p ensures p !in Conflicts(b, b, []) {
      ConflictsDisagree(b, b, [], p);
      assert [] + p == p;
    }
  }

  /** The merge reports as many conflicts as the first chunk has disagreements. */
  lemma {:induction false} CountsTheFirst(baselines: seq<Value>)
    requires baselines != [] && AllAffirmed(baselines)
    ensures |AllConflicts(baselines)| == Distance(baselines[0], baselines)
  {
    var n := |baselines| - 1;
    if n == 0 {
      NoSelfConflict(baselines[0]);
      assert Distance(baselines[0], baselines[..0]) == 0;
    } else {
      AffirmedBefore(baselines);
      CountsTheFirst(baselines[..n]);
      StepConflicts(baselines);
      var here := Conflicts(baselines[0], baselines[n], []);
      assert AllConflicts(baselines) == AllConflicts(baselines[..n]) + multiset(here);
      assert |multiset(here)| == |here|;
    }
  }

  // --------------------------------------------------------------------- other orders

  lemma {:induction false} DistanceAppend(b: Value, some: seq<Value>, other: seq<Value>)
    ensures Distance(b, some + other) == Distance(b, some) + Distance(b, other)
  {
    if other == [] {
      assert some + other == some;
    } else {
      var n := |other| - 1;
      assert (some + other)[..|some| + n] == some + other[..n];
      DistanceAppend(b, some, other[..n]);
    }
  }

  lemma DistanceWithout(b: Value, baselines: seq<Value>, j: nat)
    requires j < |baselines|
    ensures Distance(b, baselines) == Distance(b, Without(baselines, j)) + |Conflicts(b, baselines[j], [])|
  {
    var front, x, back := baselines[..j], [baselines[j]], baselines[j + 1..];
    assert baselines == front + x + back;
    DistanceAppend(b, front, back);
    DistanceAppend(b, front + x, back);
    DistanceAppend(b, front, x);
    assert x[..0] == [];
  }

  lemma {:induction false} DistanceReordered(b: Value, some: seq<Value>, other: seq<Value>)
    requires Reordered(some, other)
    ensures Distance(b, some) == Distance(b, other)
  {
    SameMembers(some, other);
    if some == [] {
    } else {
      assert some[0] in other;
      var j :| 0 <= j < |other| && other[j] == some[0];
      DistanceWithout(b, some, 0);
      DistanceWithout(b, other, j);
      TakeOut(some, 0, []);
      TakeOut(other, j, []);
      Cancel(multiset(Without(some, 0)), multiset(Without(other, j)), some[0]);
      DistanceReordered(b, Without(some, 0), Without(other, j));
    }
  }

  lemma AffirmedReordered(some: seq<Value>, other: seq<Value>)
    requires AllAffirmed(some) && Reordered(some, other)
    ensures AllAffirmed(other)
  {
    SameMembers(some, other);
    ShapeReordered(some, other);
    forall p, i, j | 0 <= i < |other| && 0 <= j < |other| && HoldsScalar(other[i], p)
      ensures HoldsScalar(other[j], p) && Positive(At(other[j], p).value)
    {
      assert other[i] in some && other[j] in some;
      var k :| 0 <= k < |some| && some[k] == other[i];
      var l :| 0 <= l < |some| && some[l] == other[j];
      assert HoldsScalar(some[k], p);
    }
  }

  /** However the chunks are ordered, the penalty is the same. */
  ghost predicate PenaltyIsOrderFree(baselines: seq<Value>)
    requires baselines != []
  {
    forall other :: Reordered(baselines, other) && other != [] ==> |AllConflicts(other)| == |AllConflicts(baselines)|
  }

  /** A chunk put in front. */
  lemma CountInFront(baselines: seq<Value>, i: nat) returns (other: seq<Value>)
    requires i < |baselines| && AllAffirmed(baselines)
    ensures Reordered(baselines, other) && other != [] && other[0] == baselines[i]
    ensures |AllConflicts(other)| == Distance(baselines[i], baselines)
  {
    other := [baselines[i]] + Without(baselines, i);
    TakeOut(baselines, i, []);
    assert multiset(other) == multiset{baselines[i]} + multiset(Without(baselines, i));
    AffirmedReordered(baselines, other);
    CountsTheFirst(other);
    DistanceReordered(baselines[i], baselines, other);
  }

  /** Where all values are known and not negative, the number of conflicts, and with it the
    * penalty, is independent of chunk order exactly if every chunk disagrees with the others in
    * as many places. */
  lemma PenaltyIsOrderFreeExactly(baselines: seq<Value>)
    requires baselines != [] && AllAffirmed(baselines)
    ensures PenaltyIsOrderFree(baselines) <==>
            forall i, j :: 0 <= i < |baselines| && 0 <= j < |baselines| ==>
              Distance(baselines[i], baselines) == Distance(baselines[j], baselines)
  {
    if PenaltyIsOrderFree(baselines) {
      forall i | 0 <= i < |baselines| ensures Distance(baselines[i], baselines) == |AllConflicts(baselines)| {
        var other := CountInFront(baselines, i);
      }
    }
    if forall i, j :: 0 <= i < |baselines| && 0 <= j < |baselines| ==>
         Distance(baselines[i], baselines) == Distance(baselines[j], baselines) {
      forall other | Reordered(baselines, other) && other != [] ensures |AllConflicts(other)| == |AllConflicts(baselines)| {
        CountOfOrder(baselines, other);
        CountsTheFirst(baselines);
      }
    }
  }

  lemma CountOfOrder(baselines: seq<Value>, other: seq<Value>)
    requires AllAffirmed(baselines) && Reordered(baselines, other) && other != []
    ensures exists i :: 0 <= i < |baselines| && |AllConflicts(other)| == Distance(baselines[i], baselines)
  {
    SameMembers(baselines, other);
    AffirmedReordered(baselines, other);
    CountsTheFirst(other);
    DistanceReordered(other[0], baselines, other);
    assert other[0] in baselines;
    var i :| 0 <= i < |baselines| && baselines[i] == other[0];
  }

  // ----------------------------------------------- a penalty that hides unequal counts

  lemma FlatAt(fields: map<string, Value>, p: Path)
    requires forall k :: k in fields ==> KindOf(fields[k]) == Scalar
    ensures At(Dict(fields), p)
            == if p == [] then Some(Dict(fields)) else if |p| == 1 && p[0] in fields then Some(fields[p[0]]) else None
  {
  }

  /** Three fields, of which the i-th is odd. */
  function OddAt(ks: seq<string>, i: int, odd: Value, even: Value): Value
    requires |ks| == 3
  {
    Dict(map[ks[0] := if i == 0 then odd else even, ks[1] := if i == 1 then odd else even, ks[2] := if i == 2 then odd else even])
  }

  predicate Distinct(ks: seq<string>) { |ks| == 3 && ks[0] != ks[1] && ks[1] != ks[2] && ks[0] != ks[2] }

  lemma OddAtPath(ks: seq<string>, i: int, x: Value, y: Value, p: Path)
    requires Distinct(ks) && KindOf(x) == KindOf(y) == Scalar
    ensures var v := At(OddAt(ks, i, x, y), p);
            && (p == [] ==> v == Some(OddAt(ks, i, x, y)))
            && (forall j :: 0 <= j < 3 && p == [ks[j]] ==> v == Some(if i == j then x else y))
            && (p != [] && (forall j :: 0 <= j < 3 ==> p != [ks[j]]) ==> v == None)
  {
    FlatAt(OddAt(ks, i, x, y).fields, p);
    if |p| == 1 { assert p == [p[0]]; }
  }

  /** Each of three chunks is the odd one out at a path of its own: four conflicts in every
    * order, although the count at each path depends on it. */
  lemma OddOnesOut(ks: seq<string>, x: Value, y: Value)
    requires Distinct(ks) && Positive(x) && Positive(y) && x != y && KindOf(x) == KindOf(y) == Scalar
    ensures var chunks := [OddAt(ks, 0, x, y), OddAt(ks, 1, x, y), OddAt(ks, 2, x, y)];
            && SameShaped(chunks) && PenaltyIsOrderFree(chunks) && |AllConflicts(chunks)| == 4
            && !BalancedEverywhere(chunks)
  {
    var chunks := [OddAt(ks, 0, x, y), OddAt(ks, 1, x, y), OddAt(ks, 2, x, y)];
    OddAffirmed(ks, x, y, chunks);
    forall i | 0 <= i < 3 ensures Distance(chunks[i], chunks) == 4 { OddDistance(ks, x, y, i, chunks); }
    PenaltyIsOrderFreeExactly(chunks);
    CountsTheFirst(chunks);
    OddIsUnbalanced(ks, x, y, chunks);
  }

  ghost predicate AreOdd(ks: seq<string>, x: Value, y: Value, chunks: seq<Value>)
    requires |ks| == 3
  {
    |chunks| == 3 && forall i :: 0 <= i < 3 ==> chunks[i] == OddAt(ks, i, x, y)
  }

  lemma OddAffirmed(ks: seq<string>, x: Value, y: Value, chunks: seq<Value>)
    requires Distinct(ks) && Positive(x) && Positive(y) && KindOf(x) == KindOf(y) == Scalar && AreOdd(ks, x, y, chunks)
    ensures AllAffirmed(chunks)
  {
    forall p, i, j | 0 <= i < 3 && 0 <= j < 3
      ensures At(chunks[i], p).Some? <==> At(chunks[j], p).Some?
      ensures At(chunks[i], p).Some? ==> KindOf(At(chunks[i], p).value) == KindOf(At(chunks[j], p).value)
      ensures HoldsScalar(chunks[j], p) ==> Positive(At(chunks[j], p).value)
    {
      OddAtPath(ks, i, x, y, p);
      OddAtPath(ks, j, x, y, p);
    }
  }

  lemma OddConflicts(ks: seq<string>, x: Value, y: Value, i: nat, j: nat)
    requires Distinct(ks) && Positive(x) && Positive(y) && x != y && KindOf(x) == KindOf(y) == Scalar
    requires i < 3 && j < 3 && i != j && Compatible(OddAt(ks, i, x, y), OddAt(ks, j, x, y))
    ensures |Conflicts(OddAt(ks, i, x, y), OddAt(ks, j, x, y), [])| == 2
  {
    var a, b := OddAt(ks, i, x, y), OddAt(ks, j, x, y);
    forall p ensures p in Conflicts(a, b, []) <==> p in {[ks[i]], [ks[j]]} {
      ConflictsDisagree(a, b, [], p);
      assert [] + p == p;
      OddAtPath(ks, i, x, y, p);
      OddAtPath(ks, j, x, y, p);
    }
    assert Conflicts(a, b, []) == {[ks[i]], [ks[j]]};
    assert [ks[i]][0] != [ks[j]][0];
  }

  lemma OddDistance(ks: seq<string>, x: Value, y: Value, i: nat, chunks: seq<Value>)
    requires Distinct(ks) && Positive(x) && Positive(y) && x != y && KindOf(x) == KindOf(y) == Scalar
    requires i < 3 && AreOdd(ks, x, y, chunks) && SameShaped(chunks)
    ensures Distance(chunks[i], chunks) == 4
  {
    NoSelfConflict(chunks[i]);
    forall j | 0 <= j < 3 && j != i ensures |Conflicts(chunks[i], chunks[j], [])| == 2 {
      assert Compatible(chunks[i], chunks[j]);
      OddConflicts(ks, x, y, i, j);
    }
    DistanceOfThree(chunks[i], chunks);
  }

  lemma DistanceOfThree(b: Value, chunks: seq<Value>)
    requires |chunks| == 3
    ensures Distance(b, chunks)
            == |Conflicts(b, chunks[0], [])| + |Conflicts(b, chunks[1], [])| + |Conflicts(b, chunks[2], [])|
  {
    assert chunks[..2][..1] == chunks[..1] && chunks[..1][..0] == [];
    assert Distance(b, chunks[..1]) == |Conflicts(b, chunks[0], [])|;
    assert Distance(b, chunks[..2]) == Distance(b, chunks[..1]) + |Conflicts(b, chunks[1], [])|;
  }

  lemma OddIsUnbalanced(ks: seq<string>, x: Value, y: Value, chunks: seq<Value>)
    requires Distinct(ks) && Positive(x) && Positive(y) && x != y && KindOf(x) == KindOf(y) == Scalar
    requires AreOdd(ks, x, y, chunks)
    ensures !BalancedEverywhere(chunks)
  {
    var p := [ks[0]];
    forall i | 0 <= i < 3 ensures Met(At(chunks[i], p)) == [if i == 0 then x else y] { OddAtPath(ks, i, x, y, p); }
    KnownsOfThree(chunks, p);
    var known := [x, y, y];
    assert Knowns(chunks, p) == known;
    assert known[0] in known && known[1] in known && multiset(known)[x] == 1 && multiset(known)[y] == 2;
    assert !EquallyOften(known, x, y);
  }

  lemma KnownsOfThree(chunks: seq<Value>, p: Path)
    requires |chunks| == 3
    ensures Knowns(chunks, p) == Met(At(chunks[0], p)) + Met(At(chunks[1], p)) + Met(At(chunks[2], p))
  {
    assert chunks[..2][..1] == chunks[..1] && chunks[..1][..0] == [];
    assert Knowns(chunks[..1], p) == [] + Met(At(chunks[0], p));
  }
}
