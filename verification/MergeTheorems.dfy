/** The closed form of the n-way merge, path by path. */
module MergeTheorems {
  import opened Common
  import opened Merge
  import Text

  // ------------------------------------------------------------ values at a path

  function At(v: Value, p: Path): Option<Value> {
    if p == [] then Some(v)
    else if v.Dict? && p[0] in v.fields then At(v.fields[p[0]], p[1..])
    else None
  }

  datatype Kind = Scalar | Sequence | Record

  function KindOf(v: Value): Kind {
    if v.Dict? then Record else if v.List? then Sequence else Scalar
  }

  /** The two never hold values of different kinds at one path. */
  ghost predicate Compatible(t: Value, v: Value) {
    forall p :: At(t, p).Some? && At(v, p).Some? ==> KindOf(At(t, p).value) == KindOf(At(v, p).value)
  }

  /** Baselines of one schema. */
  ghost predicate SameShaped(baselines: seq<Value>) {
    && (forall i :: 0 <= i < |baselines| ==> baselines[i].Dict?)
    && (forall i, j :: 0 <= i < |baselines| && 0 <= j < |baselines| ==> Compatible(baselines[i], baselines[j]))
  }

  /** The values present at p, in chunk order. */
  function Present(baselines: seq<Value>, p: Path): seq<Value> {
    if baselines == [] then []
    else
      var last := At(baselines[|baselines| - 1], p);
      Present(baselines[..|baselines| - 1], p) + if last.Some? then [last.value] else []
  }

  // --------------------------------------------------------------- closed forms

  predicate Known(v: Value) { !IsUnknown(v) }
  predicate Positive(v: Value) { Known(v) && !IsNegative(v) }

  /** The first item satisfying `test`. */
  function First(items: seq<Value>, test: Value -> bool): (first: Option<Value>)
    ensures first.Some? <==> exists i :: 0 <= i < |items| && test(items[i])
    ensures first.Some? ==>
              exists i :: 0 <= i < |items| && items[i] == first.value && test(items[i])
                          && forall j :: 0 <= j < i ==> !test(items[j])
  {
    if items == [] then None
    else
      var before := items[..|items| - 1];
      assert forall i :: 0 <= i < |before| ==> before[i] == items[i];
      var earlier := First(before, test);
      if earlier.Some? then earlier
      else if test(items[|items| - 1]) then Some(items[|items| - 1])
      else None
  }

  /** First known non-negative value, else first known negative, else first present. */
  function Pick(present: seq<Value>): Value
    requires present != []
  {
    if First(present, Positive).Some? then First(present, Positive).value
    else if First(present, Known).Some? then First(present, Known).value
    else present[0]
  }

  /** The items of `more` not in `items`, at their first occurrence, in order. */
  function Unseen(items: seq<Value>, more: seq<Value>): seq<Value> {
    if more == [] then []
    else
      var before, last := more[..|more| - 1], more[|more| - 1];
      Unseen(items, before) + if last in items || last in before then [] else [last]
  }

  function Concat(lists: seq<Value>): seq<Value>
    requires forall i :: 0 <= i < |lists| ==> lists[i].List?
  {
    if lists == [] then [] else Concat(lists[..|lists| - 1]) + lists[|lists| - 1].items
  }

  // ------------------------------------------------------------------- one merge

  /** What merging does to the value at any path. */
  lemma {:induction false} AtMerge(t: Value, v: Value, p: Path)
    requires Compatible(t, v) && t.Dict? && v.Dict?
    ensures At(MergeValue(t, v), p) ==
            if At(t, p).None? then At(v, p)
            else if At(v, p).None? then At(t, p)
            else Some(MergeValue(At(t, p).value, At(v, p).value))
    decreases |p|
  {
    if p == [] {
    } else {
      var k := p[0];
      assert At(t, p) == if k in t.fields then At(t.fields[k], p[1..]) else None;
      assert At(v, p) == if k in v.fields then At(v.fields[k], p[1..]) else None;
      var m := MergeFields(t.fields, v, v.fields.Keys);
      assert MergeValue(t, v) == Dict(m);
      assert At(Dict(m), p) == if k in m then At(m[k], p[1..]) else None;
      if k in t.fields && k in v.fields {
        FieldsCompatible(t, v, k);
        var a, b := t.fields[k], v.fields[k];
        assert m[k] == MergeField(t.fields, v, k) == MergeValue(a, b);
        if a.Dict? && b.Dict? {
          AtMerge(a, b, p[1..]);
        } else {
          assert At(t, [k]) == Some(a) && At(v, [k]) == Some(b);
          assert KindOf(a) == KindOf(b);
          assert !MergeValue(a, b).Dict?;
          assert p[1..] != [] ==> At(a, p[1..]) == None && At(b, p[1..]) == None;
        }
      } else if k in t.fields {
        assert m[k] == t.fields[k];
      } else if k in v.fields {
        assert m[k] == MergeField(t.fields, v, k) == v.fields[k];
      }
    }
  }

  lemma FieldsCompatible(t: Value, v: Value, k: string)
    requires Compatible(t, v) && t.Dict? && v.Dict? && k in t.fields && k in v.fields
    ensures Compatible(t.fields[k], v.fields[k])
    ensures At(t, [k]) == Some(t.fields[k]) && At(v, [k]) == Some(v.fields[k])
    ensures KindOf(t.fields[k]) == KindOf(v.fields[k])
  {
    forall p | At(t.fields[k], p).Some? && At(v.fields[k], p).Some?
      ensures KindOf(At(t.fields[k], p).value) == KindOf(At(v.fields[k], p).value)
    {
      assert ([k] + p)[1..] == p;
      assert At(t, [k] + p) == At(t.fields[k], p) && At(v, [k] + p) == At(v.fields[k], p);
    }
    assert [k][1..] == [];
  }

  /** The merge reports exactly the paths with two different known scalars. */
  ghost predicate Disagree(t: Value, v: Value, p: Path) {
    && At(t, p).Some? && At(v, p).Some?
    && KindOf(At(t, p).value) == Scalar
    && Known(At(t, p).value) && Known(At(v, p).value)
    && At(t, p).value != At(v, p).value
  }

  lemma {:induction false} ConflictsDisagree(t: Value, v: Value, path: Path, p: Path)
    requires Compatible(t, v) && KindOf(t) == KindOf(v)
    ensures path + p in Conflicts(t, v, path) <==> Disagree(t, v, p)
    decreases |p|
  {
    if t.Dict? && v.Dict? {
      if p == [] {
        forall q | q in Conflicts(t, v, path) ensures q != path + [] {
          assert q in FieldConflicts(t.fields, v, path, v.fields.Keys);
          var k :| k in v.fields && k in t.fields && q in Conflicts(t.fields[k], v.fields[k], path + [k]);
          ConflictsAreBelow(t.fields[k], v.fields[k], path + [k]);
        }
      } else {
        ConflictsInField(t, v, path, p);
      }
    } else if p == [] {
      assert path + [] == path;
    } else {
      assert path + p != path;
    }
  }

  lemma ConflictsInField(t: Value, v: Value, path: Path, p: Path)
    requires Compatible(t, v) && t.Dict? && v.Dict? && p != []
    ensures path + p in Conflicts(t, v, path) <==> Disagree(t, v, p)
    decreases |p|, 0
  {
    var k, rest := p[0], p[1..];
    assert path + p == path + [k] + rest;
    assert path + p in Conflicts(t, v, path) <==> path + p in FieldConflicts(t.fields, v, path, v.fields.Keys);
    forall j | j in t.fields && j in v.fields && path + p in Conflicts(t.fields[j], v.fields[j], path + [j])
      ensures j == k
    {
      ConflictsAreBelow(t.fields[j], v.fields[j], path + [j]);
      assert (path + p)[|path|] == j;
    }
    if k in t.fields && k in v.fields {
      FieldsCompatible(t, v, k);
      ConflictsDisagree(t.fields[k], v.fields[k], path + [k], rest);
    }
  }

  // ------------------------------------------------------------------- the fold

  lemma {:induction false} PresentFrom(baselines: seq<Value>, p: Path)
    ensures forall x :: x in Present(baselines, p) <==>
              exists i :: 0 <= i < |baselines| && At(baselines[i], p) == Some(x)
  {
    if baselines == [] {
    } else {
      var before := baselines[..|baselines| - 1];
      PresentFrom(before, p);
      assert forall i :: 0 <= i < |before| ==> before[i] == baselines[i];
    }
  }

  /** The merged tree has the shape of its inputs. */
  lemma {:induction false} MergedShape(baselines: seq<Value>)
    requires baselines != [] && SameShaped(baselines)
    ensures MergeAll(baselines).Dict?
    ensures forall p :: At(MergeAll(baselines), p).Some? <==> Present(baselines, p) != []
    ensures forall p, i :: At(MergeAll(baselines), p).Some? && 0 <= i < |baselines| && At(baselines[i], p).Some?
              ==> KindOf(At(MergeAll(baselines), p).value) == KindOf(At(baselines[i], p).value)
    decreases |baselines|, 1
  {
    if |baselines| == 1 {
      forall p ensures Present(baselines, p) == if At(baselines[0], p).Some? then [At(baselines[0], p).value] else [] {
        assert baselines[..0] == [];
      }
    } else {
      var before, v := baselines[..|baselines| - 1], baselines[|baselines| - 1];
      ShapeStep(baselines);
      var t := MergeAll(before);
      forall p
        ensures At(MergeAll(baselines), p).Some? <==> Present(baselines, p) != []
        ensures At(MergeAll(baselines), p).Some? ==> forall i :: 0 <= i < |baselines| && At(baselines[i], p).Some? ==>
                  KindOf(At(MergeAll(baselines), p).value) == KindOf(At(baselines[i], p).value)
      {
        AtMerge(t, v, p);
        PresentFrom(before, p);
        forall i | 0 <= i < |baselines| && At(baselines[i], p).Some? && At(MergeAll(baselines), p).Some?
          ensures KindOf(At(MergeAll(baselines), p).value) == KindOf(At(baselines[i], p).value)
        {
          assert Compatible(baselines[i], v);
          if i < |before| { assert before[i] == baselines[i]; }
          if At(t, p).Some? && i == |before| {
            var x := Present(before, p)[0];
            var j :| 0 <= j < |before| && At(before[j], p) == Some(x);
            assert before[j] == baselines[j];
          }
        }
      }
    }
  }

  /** The merged prefix may be merged with the next baseline. */
  lemma {:induction false} ShapeStep(baselines: seq<Value>)
    requires |baselines| > 1 && SameShaped(baselines)
    ensures var before := baselines[..|baselines| - 1];
            && SameShaped(before)
            && MergeAll(before).Dict?
            && (forall p :: At(MergeAll(before), p).Some? <==> Present(before, p) != [])
            && (forall p, i :: At(MergeAll(before), p).Some? && 0 <= i < |before| && At(before[i], p).Some?
                  ==> KindOf(At(MergeAll(before), p).value) == KindOf(At(before[i], p).value))
            && Compatible(MergeAll(before), baselines[|baselines| - 1])
    decreases |baselines|, 0
  {
    var before, v := baselines[..|baselines| - 1], baselines[|baselines| - 1];
    assert SameShaped(before) by {
      forall i, j | 0 <= i < |before| && 0 <= j < |before| ensures Compatible(before[i], before[j]) {
        assert before[i] == baselines[i] && before[j] == baselines[j];
      }
    }
    MergedShape(before);
    forall p | At(MergeAll(before), p).Some? && At(v, p).Some?
      ensures KindOf(At(MergeAll(before), p).value) == KindOf(At(v, p).value)
    {
      PresentFrom(before, p);
      var x := Present(before, p)[0];
      var j :| 0 <= j < |before| && At(before[j], p) == Some(x);
      assert before[j] == baselines[j] && Compatible(baselines[j], v);
    }
  }

  /** The fold at one path, one baseline later. */
  lemma FoldStep(baselines: seq<Value>, p: Path)
    requires |baselines| > 1 && SameShaped(baselines)
    ensures var before, v := baselines[..|baselines| - 1], baselines[|baselines| - 1];
            && SameShaped(before)
            && (At(MergeAll(before), p).Some? <==> Present(before, p) != [])
            && At(MergeAll(baselines), p) ==
                 if At(MergeAll(before), p).None? then At(v, p)
                 else if At(v, p).None? then At(MergeAll(before), p)
                 else Some(MergeValue(At(MergeAll(before), p).value, At(v, p).value))
  {
    ShapeStep(baselines);
    AtMerge(MergeAll(baselines[..|baselines| - 1]), baselines[|baselines| - 1], p);
  }

  lemma PresentKinds(baselines: seq<Value>, p: Path)
    requires SameShaped(baselines)
    ensures forall x, y :: x in Present(baselines, p) && y in Present(baselines, p) ==> KindOf(x) == KindOf(y)
  {
    PresentFrom(baselines, p);
    forall x, y | x in Present(baselines, p) && y in Present(baselines, p) ensures KindOf(x) == KindOf(y) {
      var i :| 0 <= i < |baselines| && At(baselines[i], p) == Some(x);
      var j :| 0 <= j < |baselines| && At(baselines[j], p) == Some(y);
      assert Compatible(baselines[i], baselines[j]);
    }
  }

  lemma FirstSnoc(items: seq<Value>, v: Value, test: Value -> bool)
    ensures First(items + [v], test) ==
            if First(items, test).Some? then First(items, test) else if test(v) then Some(v) else None
  {
    assert (items + [v])[..|items|] == items;
  }

  lemma PickStep(xs: seq<Value>, v: Value)
    requires xs != [] && KindOf(v) == Scalar && forall x :: x in xs ==> KindOf(x) == Scalar
    ensures Pick(xs + [v]) == MergeValue(Pick(xs), v)
  {
    FirstSnoc(xs, v, Positive);
    FirstSnoc(xs, v, Known);
    assert forall i :: 0 <= i < |xs| ==> xs[i] in xs;
  }

  /** Scalars: the first known non-negative value wins, then the first known
    * negative one, then the first one present. */
  lemma {:induction false} ScalarClosedForm(baselines: seq<Value>, p: Path)
    requires baselines != [] && SameShaped(baselines)
    requires Present(baselines, p) != [] && KindOf(Present(baselines, p)[0]) == Scalar
    ensures At(MergeAll(baselines), p) == Some(Pick(Present(baselines, p)))
  {
    AllAreOfKind(baselines, p, Scalar);
    var xs, v := Present(baselines[..|baselines| - 1], p), At(baselines[|baselines| - 1], p);
    assert Present(baselines, p) == xs + if v.Some? then [v.value] else [];
    if |baselines| > 1 { FoldStep(baselines, p); }
    if xs == [] {
      PickOne(v.value);
    } else {
      assert xs[0] == Present(baselines, p)[0];
      ScalarClosedForm(baselines[..|baselines| - 1], p);
      if v.Some? { PickStep(xs, v.value); } else { assert Present(baselines, p) == xs; }
    }
  }

  lemma PickOne(v: Value)
    ensures Pick([v]) == v
  {
    assert [v][..0] == [] && [v] == [] + [v];
    FirstSnoc([], v, Positive);
    FirstSnoc([], v, Known);
  }

  lemma AllAreOfKind(baselines: seq<Value>, p: Path, kind: Kind)
    requires SameShaped(baselines)
    requires Present(baselines, p) != [] && KindOf(Present(baselines, p)[0]) == kind
    ensures forall x :: x in Present(baselines, p) ==> KindOf(x) == kind
    ensures forall i :: 0 <= i < |Present(baselines, p)| ==> KindOf(Present(baselines, p)[i]) == kind
  {
    PresentKinds(baselines, p);
    assert Present(baselines, p)[0] in Present(baselines, p);
  }

  lemma {:induction false} ExtendIsUnseen(items: seq<Value>, more: seq<Value>)
    ensures Extend(items, more) == items + Unseen(items, more)
    ensures forall x :: x in Extend(items, more) <==> x in items || x in more
  {
    if more == [] {
    } else {
      var before, last := more[..|more| - 1], more[|more| - 1];
      assert more == before + [last];
      ExtendIsUnseen(items, before);
    }
  }

  lemma {:induction false} ExtendTwice(items: seq<Value>, more: seq<Value>, last: seq<Value>)
    ensures Extend(Extend(items, more), last) == Extend(items, more + last)
  {
    if last == [] {
      assert more + [] == more;
    } else {
      ExtendTwice(items, more, last[..|last| - 1]);
      assert (more + last)[..|more + last| - 1] == more + last[..|last| - 1];
    }
  }

  lemma ListStep(first: seq<Value>, rest: seq<Value>, v: Value)
    requires v.List? && forall i :: 0 <= i < |rest| ==> rest[i].List?
    ensures MergeValue(List(Extend(first, Concat(rest))), v) == List(Extend(first, Concat(rest + [v])))
  {
    assert (rest + [v])[..|rest|] == rest;
    ExtendTwice(first, Concat(rest), v.items);
  }

  lemma {:induction false} ListFold(baselines: seq<Value>, p: Path)
    requires baselines != [] && SameShaped(baselines)
    requires Present(baselines, p) != [] && KindOf(Present(baselines, p)[0]) == Sequence
    ensures var lists := Present(baselines, p);
            && (forall i :: 0 <= i < |lists| ==> lists[i].List?)
            && At(MergeAll(baselines), p) == Some(List(Extend(lists[0].items, Concat(lists[1..]))))
  {
    AllAreOfKind(baselines, p, Sequence);
    var lists := Present(baselines, p);
    var xs, v := Present(baselines[..|baselines| - 1], p), At(baselines[|baselines| - 1], p);
    assert lists == xs + if v.Some? then [v.value] else [];
    if |baselines| > 1 { FoldStep(baselines, p); }
    if xs == [] {
      assert lists[1..] == [];
    } else {
      assert xs[0] == lists[0];
      ListFold(baselines[..|baselines| - 1], p);
      if v.Some? {
        assert lists[|xs|] == v.value;
        ListStep(xs[0].items, xs[1..], v.value);
        assert lists[1..] == xs[1..] + [v.value];
      } else {
        assert lists == xs;
      }
    }
  }

  /** Lists: the first list, then the later unseen items in order. */
  lemma ListClosedForm(baselines: seq<Value>, p: Path)
    requires baselines != [] && SameShaped(baselines)
    requires Present(baselines, p) != [] && KindOf(Present(baselines, p)[0]) == Sequence
    ensures var lists := Present(baselines, p);
            && (forall i :: 0 <= i < |lists| ==> lists[i].List?)
            && At(MergeAll(baselines), p) == Some(List(lists[0].items + Unseen(lists[0].items, Concat(lists[1..]))))
  {
    ListFold(baselines, p);
    var lists := Present(baselines, p);
    ExtendIsUnseen(lists[0].items, Concat(lists[1..]));
  }

  lemma {:induction false} ConcatItems(lists: seq<Value>)
    requires forall i :: 0 <= i < |lists| ==> lists[i].List?
    ensures forall x :: x in Concat(lists) <==> exists i :: 0 <= i < |lists| && x in lists[i].items
  {
    if lists == [] {
    } else {
      var before := lists[..|lists| - 1];
      ConcatItems(before);
      assert forall i :: 0 <= i < |before| ==> before[i] == lists[i];
    }
  }

  lemma FirstOrLater(lists: seq<Value>, x: Value)
    requires lists != [] && forall i :: 0 <= i < |lists| ==> lists[i].List?
    ensures x in lists[0].items || x in Concat(lists[1..]) <==> exists l :: l in lists && l.List? && x in l.items
  {
    ConcatItems(lists[1..]);
    if l :| l in lists && l.List? && x in l.items {
      var i :| 0 <= i < |lists| && lists[i] == l;
      assert i > 0 ==> lists[1..][i - 1] == l;
    }
  }

  ghost predicate ListsItem(v: Value, p: Path, x: Value) {
    At(v, p).Some? && At(v, p).value.List? && x in At(v, p).value.items
  }

  /** The item set of a merged list is the union of the chunks' lists. */
  lemma ListItemsAreUnion(baselines: seq<Value>, p: Path, x: Value)
    requires baselines != [] && SameShaped(baselines)
    requires Present(baselines, p) != [] && KindOf(Present(baselines, p)[0]) == Sequence
    ensures At(MergeAll(baselines), p).Some? && At(MergeAll(baselines), p).value.List?
    ensures ListsItem(MergeAll(baselines), p, x) <==> exists i :: 0 <= i < |baselines| && ListsItem(baselines[i], p, x)
  {
    ListClosedForm(baselines, p);
    PresentFrom(baselines, p);
    var lists := Present(baselines, p);
    ExtendIsUnseen(lists[0].items, Concat(lists[1..]));
    FirstOrLater(lists, x);
    if l :| l in lists && l.List? && x in l.items {
      var i :| 0 <= i < |baselines| && At(baselines[i], p) == Some(l);
      assert ListsItem(baselines[i], p, x);
    }
    if i :| 0 <= i < |baselines| && ListsItem(baselines[i], p, x) {
      assert At(baselines[i], p).value in lists;
    }
  }

  // ------------------------------------------------------------------ conflicts

  ghost predicate SomeDisagree(baselines: seq<Value>, p: Path) {
    exists i, j :: 0 <= i < |baselines| && 0 <= j < |baselines| && Disagree(baselines[i], baselines[j], p)
  }

  /** If all known values at p are equal, the merged value is that one. */
  lemma AgreedValue(baselines: seq<Value>, p: Path, i: int)
    requires baselines != [] && SameShaped(baselines) && !SomeDisagree(baselines, p)
    requires 0 <= i < |baselines| && At(baselines[i], p).Some?
    requires Known(At(baselines[i], p).value) && KindOf(At(baselines[i], p).value) == Scalar
    ensures At(MergeAll(baselines), p) == At(baselines[i], p)
  {
    var a := At(baselines[i], p).value;
    var xs := Present(baselines, p);
    PresentFrom(baselines, p);
    PresentKinds(baselines, p);
    assert a in xs && xs[0] in xs;
    forall x | x in xs && Known(x) ensures x == a {
      var j :| 0 <= j < |baselines| && At(baselines[j], p) == Some(x);
      assert !Disagree(baselines[i], baselines[j], p);
    }
    ScalarClosedForm(baselines, p);
    var n :| 0 <= n < |xs| && xs[n] == a;
    assert Known(xs[n]);
    assert Pick(xs) in xs && Known(Pick(xs));
  }

  /** The conflict list holds a path exactly when two baselines hold different
    * known scalars there. */
  lemma {:induction false} ConflictsAreDisagreements(baselines: seq<Value>, p: Path)
    requires baselines != [] && SameShaped(baselines)
    ensures p in AllConflicts(baselines) <==> SomeDisagree(baselines, p)
  {
    if |baselines| > 1 {
      var n := |baselines| - 1;
      var before, v := baselines[..n], baselines[n];
      var t := MergeAll(before);
      assert forall i :: 0 <= i < n ==> before[i] == baselines[i];
      ShapeStep(baselines);
      ConflictsAreDisagreements(before, p);
      ConflictsDisagree(t, v, [], p);
      assert [] + p == p;
      assert p in AllConflicts(baselines) <==> p in AllConflicts(before) || Disagree(t, v, p);
      if SomeDisagree(before, p) {
        var i, j :| 0 <= i < n && 0 <= j < n && Disagree(before[i], before[j], p);
        assert Disagree(baselines[i], baselines[j], p);
      } else {
        LastDisagrees(baselines, p);
      }
    }
  }

  lemma LastDisagrees(baselines: seq<Value>, p: Path)
    requires |baselines| > 1 && SameShaped(baselines) && SameShaped(baselines[..|baselines| - 1])
    requires !SomeDisagree(baselines[..|baselines| - 1], p)
    ensures Disagree(MergeAll(baselines[..|baselines| - 1]), baselines[|baselines| - 1], p) <==> SomeDisagree(baselines, p)
  {
    var n := |baselines| - 1;
    var before, v := baselines[..n], baselines[n];
    var t := MergeAll(before);
    assert forall i :: 0 <= i < n ==> before[i] == baselines[i];
    if i, j :| 0 <= i <= n && 0 <= j <= n && Disagree(baselines[i], baselines[j], p) {
      assert Compatible(baselines[i], baselines[j]);
      var o := if i < n then i else j;
      assert o < n && (i == n || j == n);
      AgreedValue(before, p, o);
      assert At(t, p) == At(before[o], p);
    }
    if Disagree(t, v, p) {
      MergedIsPresent(before, p);
      var i :| 0 <= i < n && At(before[i], p) == At(t, p);
      assert Disagree(baselines[i], baselines[n], p);
    }
  }

  /** A merged scalar is one of the chunks' values. */
  lemma MergedIsPresent(baselines: seq<Value>, p: Path)
    requires baselines != [] && SameShaped(baselines)
    requires At(MergeAll(baselines), p).Some? && KindOf(At(MergeAll(baselines), p).value) == Scalar
    ensures exists i :: 0 <= i < |baselines| && At(baselines[i], p) == At(MergeAll(baselines), p)
  {
    MergedShape(baselines);
    PresentFrom(baselines, p);
    var xs := Present(baselines, p);
    var j :| 0 <= j < |baselines| && At(baselines[j], p) == Some(xs[0]);
    ScalarClosedForm(baselines, p);
    assert Pick(xs) in xs;
  }

  // ------------------------------------------------------- independence of order

  ghost predicate KnownAt(v: Value, p: Path) { At(v, p).Some? && Known(At(v, p).value) }
  ghost predicate NegativeAt(v: Value, p: Path) { At(v, p).Some? && IsNegative(At(v, p).value) }

  /** A scalar ends up negative exactly when something is known there and every
    * known value is negative. */
  lemma NegativeWins(baselines: seq<Value>, p: Path)
    requires baselines != [] && SameShaped(baselines)
    requires Present(baselines, p) != [] && KindOf(Present(baselines, p)[0]) == Scalar
    ensures NegativeAt(MergeAll(baselines), p) <==>
              && (exists i :: 0 <= i < |baselines| && KnownAt(baselines[i], p))
              && (forall i :: 0 <= i < |baselines| && KnownAt(baselines[i], p) ==> NegativeAt(baselines[i], p))
  {
    ScalarClosedForm(baselines, p);
    PickNegative(Present(baselines, p));
    KnownPresent(baselines, p);
  }

  lemma KnownPresent(baselines: seq<Value>, p: Path)
    ensures (exists x :: x in Present(baselines, p) && Known(x)) <==>
              exists i :: 0 <= i < |baselines| && KnownAt(baselines[i], p)
    ensures (forall x :: x in Present(baselines, p) && Known(x) ==> IsNegative(x)) <==>
              forall i :: 0 <= i < |baselines| && KnownAt(baselines[i], p) ==> NegativeAt(baselines[i], p)
  {
    PresentFrom(baselines, p);
    forall x | x in Present(baselines, p) && Known(x)
      ensures exists i :: 0 <= i < |baselines| && KnownAt(baselines[i], p) && At(baselines[i], p).value == x
    {
      var i :| 0 <= i < |baselines| && At(baselines[i], p) == Some(x);
      assert KnownAt(baselines[i], p);
    }
    forall i | 0 <= i < |baselines| && KnownAt(baselines[i], p)
      ensures At(baselines[i], p).value in Present(baselines, p) {}
  }

  lemma PickNegative(xs: seq<Value>)
    requires xs != []
    ensures IsNegative(Pick(xs)) <==>
              (exists x :: x in xs && Known(x)) && (forall x :: x in xs && Known(x) ==> IsNegative(x))
  {
    NegativeIsKnown(Pick(xs));
    assert Pick(xs) in xs;
    if First(xs, Positive).Some? {
      var n :| 0 <= n < |xs| && Positive(xs[n]);
      assert xs[n] in xs;
    } else {
      forall x | x in xs && Known(x) ensures IsNegative(x) {
        var n :| 0 <= n < |xs| && xs[n] == x;
        assert !Positive(xs[n]);
      }
      if First(xs, Known).None? {
        forall x | x in xs ensures !Known(x) {
          var n :| 0 <= n < |xs| && xs[n] == x;
        }
      }
    }
  }

  lemma NegativeIsKnown(v: Value)
    ensures IsNegative(v) ==> Known(v)
  {
    if v == Str("DISABLED") {
      var s := "DISABLED";
      assert Text.TrimLeft(s) == s && Text.TrimRight(s) == s;
      assert |Text.Lower(s)| == 8;
    }
  }

  lemma SamePresent(some: seq<Value>, other: seq<Value>, p: Path)
    requires forall v :: v in some <==> v in other
    ensures forall x :: x in Present(some, p) <==> x in Present(other, p)
  {
    PresentFrom(some, p);
    PresentFrom(other, p);
    forall x ensures x in Present(some, p) <==> x in Present(other, p) {
      if x in Present(some, p) {
        var i :| 0 <= i < |some| && At(some[i], p) == Some(x);
        assert some[i] in other;
      }
      if x in Present(other, p) {
        var i :| 0 <= i < |other| && At(other[i], p) == Some(x);
        assert other[i] in some;
      }
    }
  }

  lemma SamePresence(some: seq<Value>, other: seq<Value>, p: Path)
    requires some != [] && other != [] && SameShaped(some) && SameShaped(other)
    requires forall v :: v in some <==> v in other
    ensures Present(some, p) != [] <==> Present(other, p) != []
    ensures At(MergeAll(some), p).Some? <==> Present(some, p) != []
    ensures At(MergeAll(other), p).Some? <==> Present(other, p) != []
  {
    MergedShape(some);
    MergedShape(other);
    SamePresent(some, other, p);
    if Present(some, p) != [] { assert Present(some, p)[0] in Present(other, p); }
    if Present(other, p) != [] { assert Present(other, p)[0] in Present(some, p); }
  }

  lemma SameKindPresent(some: seq<Value>, other: seq<Value>, p: Path)
    requires SameShaped(some) && SameShaped(other) && forall v :: v in some <==> v in other
    requires Present(some, p) != [] && Present(other, p) != []
    ensures KindOf(Present(some, p)[0]) == KindOf(Present(other, p)[0])
  {
    SamePresent(some, other, p);
    PresentKinds(some, p);
    assert Present(other, p)[0] in Present(some, p) && Present(some, p)[0] in Present(some, p);
  }

  /** The kind of the merged value is the kind of the first one present. */
  lemma MergedKind(baselines: seq<Value>, p: Path)
    requires baselines != [] && SameShaped(baselines) && Present(baselines, p) != []
    ensures At(MergeAll(baselines), p).Some?
    ensures KindOf(At(MergeAll(baselines), p).value) == KindOf(Present(baselines, p)[0])
  {
    MergedShape(baselines);
    PresentFrom(baselines, p);
    assert Present(baselines, p)[0] in Present(baselines, p);
    var i :| 0 <= i < |baselines| && At(baselines[i], p) == Some(Present(baselines, p)[0]);
  }

  lemma SameItems(some: seq<Value>, other: seq<Value>, p: Path, x: Value)
    requires some != [] && SameShaped(some) && SameShaped(other) && other != []
    requires forall v :: v in some <==> v in other
    requires Present(some, p) != [] && Present(other, p) != [] && KindOf(Present(some, p)[0]) == Sequence
    ensures At(MergeAll(some), p).Some? && At(MergeAll(some), p).value.List?
    ensures At(MergeAll(other), p).Some? && At(MergeAll(other), p).value.List?
    ensures ListsItem(MergeAll(some), p, x) ==> ListsItem(MergeAll(other), p, x)
  {
    SameKindPresent(some, other, p);
    ListItemsAreUnion(some, p, x);
    ListItemsAreUnion(other, p, x);
    if ListsItem(MergeAll(some), p, x) {
      var i :| 0 <= i < |some| && ListsItem(some[i], p, x);
      assert some[i] in other;
      var j :| 0 <= j < |other| && other[j] == some[i];
    }
  }

  lemma SameSign(some: seq<Value>, other: seq<Value>, p: Path)
    requires some != [] && SameShaped(some) && SameShaped(other) && other != []
    requires forall v :: v in some <==> v in other
    requires Present(some, p) != [] && Present(other, p) != [] && KindOf(Present(some, p)[0]) == Scalar
    ensures NegativeAt(MergeAll(some), p) ==> NegativeAt(MergeAll(other), p)
  {
    SameKindPresent(some, other, p);
    NegativeWins(some, p);
    NegativeWins(other, p);
    if NegativeAt(MergeAll(some), p) {
      var i :| 0 <= i < |some| && KnownAt(some[i], p);
      assert some[i] in other;
      forall j | 0 <= j < |other| ensures other[j] in some { assert other[j] in other; }
    }
  }

  /** Chunk order does not decide the conflict paths, the items of any list, or
    * whether a value ends up negative: only which chunks there are does. */
  lemma OrderIsIrrelevant(some: seq<Value>, other: seq<Value>, p: Path)
    requires some != [] && other != [] && SameShaped(some) && SameShaped(other)
    requires forall v :: v in some <==> v in other
    ensures p in AllConflicts(some) <==> p in AllConflicts(other)
    ensures At(MergeAll(some), p).Some? <==> At(MergeAll(other), p).Some?
    ensures At(MergeAll(some), p).Some? ==>
              var a, b := At(MergeAll(some), p).value, At(MergeAll(other), p).value;
              && KindOf(a) == KindOf(b)
              && (KindOf(a) == Sequence ==>
                    forall x :: ListsItem(MergeAll(some), p, x) <==> ListsItem(MergeAll(other), p, x))
              && (KindOf(a) == Scalar ==> (NegativeAt(MergeAll(some), p) <==> NegativeAt(MergeAll(other), p)))
  {
    ConflictsAreDisagreements(some, p);
    ConflictsAreDisagreements(other, p);
    if SomeDisagree(some, p) { SameDisagreements(some, other, p); }
    if SomeDisagree(other, p) { SameDisagreements(other, some, p); }
    SamePresence(some, other, p);
    if At(MergeAll(some), p).Some? {
      MergedKind(some, p);
      MergedKind(other, p);
      SameKindPresent(some, other, p);
      if KindOf(Present(some, p)[0]) == Sequence {
        forall x ensures ListsItem(MergeAll(some), p, x) <==> ListsItem(MergeAll(other), p, x) {
          SameItems(some, other, p, x);
          SameItems(other, some, p, x);
        }
      } else if KindOf(Present(some, p)[0]) == Scalar {
        SameSign(some, other, p);
        SameSign(other, some, p);
      }
    }
  }

  lemma SameDisagreements(some: seq<Value>, other: seq<Value>, p: Path)
    requires forall v :: v in some <==> v in other
    requires SomeDisagree(some, p)
    ensures SomeDisagree(other, p)
  {
    var i, j :| 0 <= i < |some| && 0 <= j < |some| && Disagree(some[i], some[j], p);
    assert some[i] in other && some[j] in other;
    var k :| 0 <= k < |other| && other[k] == some[i];
    var l :| 0 <= l < |other| && other[l] == some[j];
    assert Disagree(other[k], other[l], p);
  }

  /** How many conflicts are reported, and so the confidence penalty, does depend
    * on the order of the same chunks: the survivor is compared with every later
    * one.  Any two different known non-negative scalars show it. */
  lemma PenaltyDependsOnOrder(k: string, x: Value, y: Value)
    requires Positive(x) && Positive(y) && x != y && KindOf(x) == KindOf(y) == Scalar
    ensures var a, b := Dict(map[k := x]), Dict(map[k := y]);
            && SameShaped([a, b, b]) && SameShaped([b, a, b])
            && multiset([a, b, b]) == multiset([b, a, b])
            && |AllConflicts([a, b, b])| == 2
            && |AllConflicts([b, a, b])| == 1
  {
    CountBoth(k, x, y);
    OneScalarEach(k, x, y);
    var a, b := Dict(map[k := x]), Dict(map[k := y]);
    TwoOfAShape([a, b, b], a, b);
    TwoOfAShape([b, a, b], a, b);
  }

  lemma TwoOfAShape(baselines: seq<Value>, a: Value, b: Value)
    requires a.Dict? && b.Dict? && Compatible(a, b) && Compatible(b, a) && Compatible(a, a) && Compatible(b, b)
    requires forall i :: 0 <= i < |baselines| ==> baselines[i] == a || baselines[i] == b
    ensures SameShaped(baselines)
  {
  }

  lemma CountBoth(k: string, x: Value, y: Value)
    requires Positive(x) && Positive(y) && x != y && KindOf(x) == KindOf(y) == Scalar
    ensures var a, b := Dict(map[k := x]), Dict(map[k := y]);
            |AllConflicts([a, b, b])| == 2 && |AllConflicts([b, a, b])| == 1
  {
    var a, b := Dict(map[k := x]), Dict(map[k := y]);
    OneField(k, x, y);
    OneField(k, y, x);
    OneField(k, y, y);
    ThreeChunks(a, b, b);
    ThreeChunks(b, a, b);
  }

  lemma ThreeChunks(a: Value, b: Value, c: Value)
    ensures AllConflicts([a, b, c]) == multiset(Conflicts(a, b, [])) + multiset(Conflicts(MergeValue(a, b), c, []))
  {
    assert [a, b, c][..2] == [a, b] && [a, b][..1] == [a];
    assert MergeAll([a, b]) == MergeValue(a, b);
    assert AllConflicts([a, b]) == multiset(Conflicts(a, b, []));
  }

  lemma OneField(k: string, x: Value, y: Value)
    requires Positive(x) && Positive(y) && KindOf(x) == KindOf(y) == Scalar
    ensures var a, b := Dict(map[k := x]), Dict(map[k := y]);
            && MergeValue(a, b) == a
            && Conflicts(a, b, []) == if x == y then {} else {[k]}
  {
    var a, b := Dict(map[k := x]), Dict(map[k := y]);
    assert MergeField(a.fields, b, k) == MergeValue(x, y) == x;
    assert MergeFields(a.fields, b, {k}) == map[k := x];
    assert [] + [k] == [k];
    assert FieldConflicts(a.fields, b, [], {k}) == Conflicts(x, y, [k]);
  }

  lemma OneScalarEach(k: string, x: Value, y: Value)
    requires KindOf(x) == KindOf(y) == Scalar
    ensures Compatible(Dict(map[k := x]), Dict(map[k := y])) && Compatible(Dict(map[k := y]), Dict(map[k := x]))
    ensures Compatible(Dict(map[k := x]), Dict(map[k := x])) && Compatible(Dict(map[k := y]), Dict(map[k := y]))
  {
  }
}
