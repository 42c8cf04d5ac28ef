/** How many conflicts a merge reports, and when chunk order does not matter for it. */
module MergeConflicts {
  import opened Common
  import opened Merge
  import opened MergeTheorems
  import opened Survivors

  predicate KnownScalar(v: Option<Value>) {
    v.Some? && KindOf(v.value) == Scalar && Known(v.value)
  }

  /** The known scalars at p, in chunk order. */
  function Knowns(baselines: seq<Value>, p: Path): seq<Value> {
    if baselines == [] then []
    else
      var last := At(baselines[|baselines| - 1], p);
      Knowns(baselines[..|baselines| - 1], p) + if KnownScalar(last) then [last.value] else []
  }

  // ------------------------------------------------------------- the closed form

  /** What one merge does to a known scalar. */
  lemma MergedScalar(t: Value, v: Value)
    requires KindOf(t) == KindOf(v)
    ensures var m := MergeValue(t, v);
            if KnownScalar(Some(t)) && KnownScalar(Some(v)) then m == (if IsNegative(t) && !IsNegative(v) then v else t)
            else if KnownScalar(Some(t)) then m == t
            else if KnownScalar(Some(v)) then m == v
            else !KnownScalar(Some(m))
  {
  }

  lemma ConflictStep(baselines: seq<Value>, p: Path)
    requires |baselines| > 1 && SameShaped(baselines)
    ensures var before, v := baselines[..|baselines| - 1], baselines[|baselines| - 1];
            AllConflicts(baselines)[p] == AllConflicts(before)[p] + if Disagree(MergeAll(before), v, p) then 1 else 0
  {
    ShapeStep(baselines);
    ConflictsDisagree(MergeAll(baselines[..|baselines| - 1]), baselines[|baselines| - 1], [], p);
    assert [] + p == p;
  }

  predicate Clash(t: Option<Value>, v: Option<Value>) {
    KnownScalar(t) && KnownScalar(v) && t.value != v.value
  }

  /** The walk so far ends at t. */
  predicate EndsAt(knowns: seq<Value>, t: Option<Value>) {
    if knowns == [] then !KnownScalar(t) else KnownScalar(t) && t.value == Survivor(knowns, IsNegative)
  }

  function Met(v: Option<Value>): seq<Value> { if KnownScalar(v) then [v.value] else [] }

  function MergedAt(t: Option<Value>, v: Option<Value>): Option<Value> {
    if t.None? then v else if v.None? then t else Some(MergeValue(t.value, v.value))
  }

  lemma FirstKnown(t: Option<Value>, v: Value)
    requires !KnownScalar(t) && KnownScalar(Some(v)) && (t.Some? ==> KindOf(t.value) == Scalar)
    ensures MergedAt(t, Some(v)) == Some(v)
  {
    if t.Some? { MergedScalar(t.value, v); }
  }

  /** One more known scalar on the walk. */
  lemma WalkOnKnown(knowns: seq<Value>, t: Option<Value>, v: Value)
    requires EndsAt(knowns, t) && KnownScalar(Some(v)) && (t.Some? ==> KindOf(t.value) == Scalar)
    ensures EndsAt(knowns + [v], MergedAt(t, Some(v)))
    ensures Clashes(knowns + [v], IsNegative) == Clashes(knowns, IsNegative) + if Clash(t, Some(v)) then 1 else 0
  {
    Survivors.WalkOn(knowns, IsNegative, v);
    if knowns == [] {
      FirstKnown(t, v);
    } else {
      MergedScalar(t.value, v);
    }
  }

  /** A baseline that knows nothing there. */
  lemma StandStill(knowns: seq<Value>, t: Option<Value>, v: Option<Value>)
    requires EndsAt(knowns, t) && !KnownScalar(v) && (t.Some? && v.Some? ==> KindOf(t.value) == KindOf(v.value))
    ensures EndsAt(knowns, MergedAt(t, v))
  {
    if t.Some? && v.Some? { MergedScalar(t.value, v.value); }
  }

  /** One more baseline on the walk. */
  lemma WalkOn(knowns: seq<Value>, t: Option<Value>, v: Option<Value>)
    requires EndsAt(knowns, t) && (t.Some? && v.Some? ==> KindOf(t.value) == KindOf(v.value))
    ensures EndsAt(knowns + Met(v), MergedAt(t, v))
    ensures Clashes(knowns + Met(v), IsNegative) == Clashes(knowns, IsNegative) + if Clash(t, v) then 1 else 0
  {
    if KnownScalar(v) {
      WalkOnKnown(knowns, t, v.value);
    } else {
      StandStill(knowns, t, v);
      assert knowns + [] == knowns;
    }
  }

  /** The merge walks over the known scalars of each path: its survivor is the merged value,
    * and each clash a reported conflict. */
  lemma {:induction false} ConflictsAreClashes(baselines: seq<Value>, p: Path)
    requires baselines != [] && SameShaped(baselines)
    ensures AllConflicts(baselines)[p] == Clashes(Knowns(baselines, p), IsNegative)
    ensures EndsAt(Knowns(baselines, p), At(MergeAll(baselines), p))
  {
    var n := |baselines| - 1;
    var before, v := baselines[..n], At(baselines[n], p);
    assert Knowns(baselines, p) == Knowns(before, p) + Met(v);
    if n == 0 {
      assert Knowns(before, p) == [] && [] + Met(v) == Met(v);
    } else {
      ShapeStep(baselines);
      FoldStep(baselines, p);
      ConflictStep(baselines, p);
      ConflictsAreClashes(before, p);
      var t := At(MergeAll(before), p);
      assert Disagree(MergeAll(before), baselines[n], p) <==> Clash(t, v) by {
        assert t.Some? && v.Some? ==> KindOf(t.value) == KindOf(v.value);
      }
      WalkOn(Knowns(before, p), t, v);
    }
  }

  /** So many conflicts are reported at a path: with k known scalars there, k less the copies
    * of the first one that is not negative, if it comes first or does not exist; otherwise one
    * more, less the copies of the first negative value in front of it. */
  lemma ConflictsClosedForm(baselines: seq<Value>, p: Path)
    requires baselines != [] && SameShaped(baselines)
    ensures var ks := Knowns(baselines, p);
            var n := Lead(ks, IsNegative);
            AllConflicts(baselines)[p] ==
            if ks == [] then 0
            else if n == 0 || n == |ks| then |ks| - multiset(ks)[ks[0]]
            else |ks| - multiset(ks[..n])[ks[0]] - multiset(ks)[ks[n]] + 1
  {
    ConflictsAreClashes(baselines, p);
    if Knowns(baselines, p) != [] { ClashesClosedForm(Knowns(baselines, p), IsNegative); }
  }

  // -------------------------------------------------------------- orders of chunks

  ghost predicate Reordered(some: seq<Value>, other: seq<Value>) { multiset(some) == multiset(other) }

  lemma {:induction false} KnownsAppend(some: seq<Value>, other: seq<Value>, p: Path)
    ensures Knowns(some + other, p) == Knowns(some, p) + Knowns(other, p)
  {
    if other == [] {
      assert some + other == some;
    } else {
      var n := |other| - 1;
      assert (some + other)[..|some| + n] == some + other[..n];
      KnownsAppend(some, other[..n], p);
    }
  }

  lemma KnownsOne(v: Value, p: Path)
    ensures Knowns([v], p) == Met(At(v, p))
  {
    assert [v][..0] == [];
  }

  function Without(baselines: seq<Value>, j: nat): seq<Value>
    requires j < |baselines|
  {
    baselines[..j] + baselines[j + 1..]
  }

  lemma TakeOut(baselines: seq<Value>, j: nat, p: Path)
    requires j < |baselines|
    ensures multiset(baselines) == multiset(Without(baselines, j)) + multiset{baselines[j]}
    ensures multiset(Knowns(baselines, p))
            == multiset(Knowns(Without(baselines, j), p)) + multiset(Met(At(baselines[j], p)))
  {
    var front, x, back := baselines[..j], [baselines[j]], baselines[j + 1..];
    assert baselines == front + x + back;
    KnownsAppend(front, back, p);
    KnownsAppend(front + x, back, p);
    KnownsAppend(front, x, p);
    KnownsOne(baselines[j], p);
  }

  lemma {:induction false} KnownsReordered(some: seq<Value>, other: seq<Value>, p: Path)
    requires Reordered(some, other)
    ensures multiset(Knowns(some, p)) == multiset(Knowns(other, p))
  {
    SameMembers(some, other);
    if some == [] {
    } else {
      assert some[0] in other;
      var j :| 0 <= j < |other| && other[j] == some[0];
      TakeOut(some, 0, p);
      TakeOut(other, j, p);
      Cancel(multiset(Without(some, 0)), multiset(Without(other, j)), some[0]);
      KnownsReordered(Without(some, 0), Without(other, j), p);
    }
  }

  lemma Cancel<T>(some: multiset<T>, other: multiset<T>, x: T)
    requires some + multiset{x} == other + multiset{x}
    ensures some == other
  {
    forall y ensures some[y] == other[y] {
      assert (some + multiset{x})[y] == (other + multiset{x})[y];
    }
  }

  lemma {:induction false} KnownsFrom(baselines: seq<Value>, p: Path, x: Value) returns (i: nat)
    requires x in Knowns(baselines, p)
    ensures i < |baselines| && At(baselines[i], p) == Some(x) && Met(Some(x)) == [x]
  {
    var n := |baselines| - 1;
    if x in Knowns(baselines[..n], p) {
      i := KnownsFrom(baselines[..n], p, x);
    } else {
      i := n;
    }
  }

  lemma ShapeReordered(some: seq<Value>, other: seq<Value>)
    requires SameShaped(some) && Reordered(some, other)
    ensures SameShaped(other)
  {
    SameMembers(some, other);
    forall i | 0 <= i < |other| ensures exists j :: 0 <= j < |some| && some[j] == other[i] {
      assert other[i] in some;
    }
  }

  /** An order whose first known scalar at p is x; one that led before comes next. */
  lemma InFront(baselines: seq<Value>, p: Path, i: nat) returns (other: seq<Value>)
    requires i < |baselines| && KnownScalar(At(baselines[i], p))
    ensures Reordered(baselines, other) && other != [] && other[0] == baselines[i]
    ensures i > 0 ==> |other| > 1 && other[1] == baselines[0]
    ensures Knowns(other, p) == [At(baselines[i], p).value] + Knowns(other[1..], p)
  {
    other := [baselines[i]] + baselines[..i] + baselines[i + 1..];
    assert baselines == baselines[..i] + [baselines[i]] + baselines[i + 1..];
    assert other == [baselines[i]] + other[1..];
    KnownsAppend([baselines[i]], other[1..], p);
    KnownsOne(baselines[i], p);
  }

  // ------------------------------------------------------------ exactly when it holds

  /** However the chunks are ordered, a path is reported as often. */
  ghost predicate CountIsOrderFree(baselines: seq<Value>, p: Path)
    requires baselines != []
  {
    forall other :: Reordered(baselines, other) && other != [] ==> AllConflicts(other)[p] == AllConflicts(baselines)[p]
  }

  /** The number of conflicts at a path is independent of chunk order exactly if all values
    * known there that are not negative occur equally often, and then no negative one occurs
    * twice; with negative values only, exactly if these occur equally often. */
  lemma CountIsOrderFreeExactly(baselines: seq<Value>, p: Path)
    requires baselines != [] && SameShaped(baselines)
    ensures CountIsOrderFree(baselines, p) <==> Balanced(Knowns(baselines, p), IsNegative)
  {
    if Balanced(Knowns(baselines, p), IsNegative) {
      forall other | Reordered(baselines, other) && other != []
        ensures AllConflicts(other)[p] == AllConflicts(baselines)[p]
      {
        BalancedIsOrderFree(baselines, other, p);
      }
    }
    if CountIsOrderFree(baselines, p) {
      OrderFreeIsBalanced(baselines, p);
    }
  }

  lemma BalancedIsOrderFree(baselines: seq<Value>, other: seq<Value>, p: Path)
    requires baselines != [] && other != [] && SameShaped(baselines) && Reordered(baselines, other)
    requires Balanced(Knowns(baselines, p), IsNegative)
    ensures AllConflicts(other)[p] == AllConflicts(baselines)[p]
  {
    var xs, ys := Knowns(baselines, p), Knowns(other, p);
    ShapeReordered(baselines, other);
    ConflictsAreClashes(baselines, p);
    ConflictsAreClashes(other, p);
    KnownsReordered(baselines, other, p);
    SameMembers(xs, ys);
    if xs != [] {
      BalancedReordered(xs, ys);
      var n := Lead(xs, IsNegative);
      var x := xs[if n < |xs| then n else 0];
      assert x in xs;
      BalancedClashes(xs, IsNegative, x);
      BalancedClashes(ys, IsNegative, x);
    }
  }

  lemma BalancedReordered(xs: seq<Value>, ys: seq<Value>)
    requires multiset(xs) == multiset(ys) && Balanced(xs, IsNegative)
    ensures Balanced(ys, IsNegative)
  {
    SameMembers(xs, ys);
    assert forall x, y :: EquallyOften(xs, x, y) <==> EquallyOften(ys, x, y);
  }

  /** In some order x comes first, and then it clashes with all other values. */
  lemma LeadingClashes(baselines: seq<Value>, p: Path, x: Value)
    requires baselines != [] && SameShaped(baselines) && CountIsOrderFree(baselines, p)
    requires var ks := Knowns(baselines, p); x in ks && (IsNegative(x) ==> forall y :: y in ks ==> IsNegative(y))
    ensures AllConflicts(baselines)[p] == |Knowns(baselines, p)| - multiset(Knowns(baselines, p))[x]
  {
    var i := KnownsFrom(baselines, p, x);
    var other := InFront(baselines, p, i);
    ShapeReordered(baselines, other);
    KnownsReordered(baselines, other, p);
    SameMembers(Knowns(baselines, p), Knowns(other, p));
    ConflictsAreClashes(other, p);
    FrontClashes(Knowns(other, p), IsNegative);
  }

  /** In some order two copies of x come first. */
  lemma TwoInFront(baselines: seq<Value>, p: Path, x: Value) returns (other: seq<Value>)
    requires multiset(Knowns(baselines, p))[x] > 1
    ensures Reordered(baselines, other) && other != []
    ensures |Knowns(other, p)| > 1 && Knowns(other, p)[0] == Knowns(other, p)[1] == x
  {
    assert x in Knowns(baselines, p);
    var i := KnownsFrom(baselines, p, x);
    var once := InFront(baselines, p, i);
    KnownsReordered(baselines, once, p);
    InTail(x, Knowns(once[1..], p));
    other := AnotherInFront(once, p, x);
    assert Reordered(baselines, other);
  }

  /** With one copy in front, another is moved before it. */
  lemma AnotherInFront(once: seq<Value>, p: Path, x: Value) returns (other: seq<Value>)
    requires once != [] && KnownScalar(At(once[0], p)) && At(once[0], p).value == x && x in Knowns(once[1..], p)
    ensures Reordered(once, other) && other != []
    ensures |Knowns(other, p)| > 1 && Knowns(other, p)[0] == Knowns(other, p)[1] == x
  {
    var j := KnownsFrom(once[1..], p, x);
    other := InFront(once, p, j + 1);
    Leads(other[1..], p);
  }

  lemma Leads(baselines: seq<Value>, p: Path)
    requires baselines != [] && KnownScalar(At(baselines[0], p))
    ensures Knowns(baselines, p) != [] && Knowns(baselines, p)[0] == At(baselines[0], p).value
  {
    assert baselines == [baselines[0]] + baselines[1..];
    KnownsAppend([baselines[0]], baselines[1..], p);
    KnownsOne(baselines[0], p);
  }

  lemma InTail(x: Value, tail: seq<Value>)
    requires multiset([x] + tail)[x] > 1
    ensures x in tail
  {
    assert multiset([x] + tail)[x] == 1 + multiset(tail)[x];
  }

  ghost predicate AllNegative(ks: seq<Value>) { forall z :: z in ks ==> IsNegative(z) }

  lemma OrderFreeIsBalanced(baselines: seq<Value>, p: Path)
    requires baselines != [] && SameShaped(baselines) && CountIsOrderFree(baselines, p)
    ensures Balanced(Knowns(baselines, p), IsNegative)
  {
    var ks := Knowns(baselines, p);
    forall x, y | x in ks && y in ks && ((!IsNegative(x) && !IsNegative(y)) || AllNegative(ks))
      ensures EquallyOften(ks, x, y)
    {
      LeadingClashes(baselines, p, x);
      LeadingClashes(baselines, p, y);
    }
    forall x, f | x in ks && IsNegative(x) && f in ks && !IsNegative(f) ensures multiset(ks)[x] == 1 {
      if multiset(ks)[x] > 1 { TwiceIsFewer(baselines, p, x, f); }
    }
  }

  lemma TwiceIsFewer(baselines: seq<Value>, p: Path, x: Value, f: Value)
    requires baselines != [] && SameShaped(baselines)
    requires var ks := Knowns(baselines, p);
             && IsNegative(x) && multiset(ks)[x] > 1 && f in ks && !IsNegative(f)
             && forall y :: y in ks && !IsNegative(y) ==> EquallyOften(ks, f, y)
    ensures !CountIsOrderFree(baselines, p)
  {
    var other := TwoInFront(baselines, p, x);
    var ks, js := Knowns(baselines, p), Knowns(other, p);
    ShapeReordered(baselines, other);
    KnownsReordered(baselines, other, p);
    SameMembers(ks, js);
    ConflictsAreClashes(other, p);
    forall y | y in js && !IsNegative(y) ensures EquallyOften(js, f, y) { assert EquallyOften(ks, f, y); }
    TwiceInFront(js, IsNegative, f);
    if CountIsOrderFree(baselines, p) { LeadingClashes(baselines, p, f); }
  }

  ghost predicate ReportIsOrderFree(baselines: seq<Value>)
    requires baselines != []
  {
    forall other :: Reordered(baselines, other) && other != [] ==> AllConflicts(other) == AllConflicts(baselines)
  }

  lemma SameReport(some: multiset<Path>, other: multiset<Path>)
    requires forall p :: some[p] == other[p]
    ensures some == other
  {
  }

  ghost predicate BalancedEverywhere(baselines: seq<Value>) {
    forall p :: Balanced(Knowns(baselines, p), IsNegative)
  }

  /** Then the number of conflicts, and with it the confidence penalty, is. */
  lemma SameWhenBalanced(baselines: seq<Value>, other: seq<Value>)
    requires baselines != [] && other != [] && SameShaped(baselines) && Reordered(baselines, other)
    requires BalancedEverywhere(baselines)
    ensures AllConflicts(other) == AllConflicts(baselines)
    ensures |AllConflicts(other)| == |AllConflicts(baselines)|
  {
    forall p ensures AllConflicts(other)[p] == AllConflicts(baselines)[p] { BalancedIsOrderFree(baselines, other, p); }
    SameReport(AllConflicts(other), AllConflicts(baselines));
  }

  /** The whole conflict report, each path with its multiplicity, is independent of chunk order
    * exactly if that holds at every path. */
  lemma ReportIsOrderFreeExactly(baselines: seq<Value>)
    requires baselines != [] && SameShaped(baselines)
    ensures ReportIsOrderFree(baselines) <==> BalancedEverywhere(baselines)
  {
    if ReportIsOrderFree(baselines) {
      forall p ensures Balanced(Knowns(baselines, p), IsNegative) { OrderFreeIsBalanced(baselines, p); }
    }
    if BalancedEverywhere(baselines) {
      forall other | Reordered(baselines, other) && other != [] ensures AllConflicts(other) == AllConflicts(baselines) {
        SameWhenBalanced(baselines, other);
      }
    }
  }
}
