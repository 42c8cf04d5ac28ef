/** Python's stable sort by an integer key, and what searching a sorted list finds. */
module Sorting {
  import opened Common

  /** Insert behind everything that is not later. */
  function Insert<T>(s: seq<T>, x: T, key: T -> int): (r: seq<T>)
    ensures |r| == |s| + 1
  {
    if s == [] || key(s[|s| - 1]) <= key(x) then s + [x] else Insert(s[..|s| - 1], x, key) + [s[|s| - 1]]
  }

  /** sorted(s, key=key), and s.sort(key=key). */
  function SortBy<T>(s: seq<T>, key: T -> int): (r: seq<T>)
    ensures |r| == |s|
  {
    if s == [] then [] else Insert(SortBy(s[..|s| - 1], key), s[|s| - 1], key)
  }

  ghost predicate Ordered<T>(s: seq<T>, key: T -> int) {
    forall i, j :: 0 <= i < j < |s| ==> key(s[i]) <= key(s[j])
  }

  lemma {:induction false} InsertOrders<T>(s: seq<T>, x: T, key: T -> int)
    requires Ordered(s, key)
    ensures Ordered(Insert(s, x, key), key)
  {
    if s == [] {
    } else if key(s[|s| - 1]) <= key(x) {
      Snoc(s, x, key);
    } else {
      var before, y := s[..|s| - 1], s[|s| - 1];
      InsertOrders(before, x, key);
      InsertStaysBelow(before, x, key, key(y));
      Snoc(Insert(before, x, key), y, key);
    }
  }

  lemma Snoc<T>(s: seq<T>, y: T, key: T -> int)
    requires Ordered(s, key) && forall i :: 0 <= i < |s| ==> key(s[i]) <= key(y)
    ensures Ordered(s + [y], key)
  {
  }

  lemma {:induction false} InsertAdds<T>(s: seq<T>, x: T, key: T -> int)
    ensures multiset(Insert(s, x, key)) == multiset(s) + multiset{x}
  {
    if !(s == [] || key(s[|s| - 1]) <= key(x)) {
      InsertAdds(s[..|s| - 1], x, key);
      assert s == s[..|s| - 1] + [s[|s| - 1]];
    }
  }

  lemma {:induction false} InsertStaysBelow<T>(s: seq<T>, x: T, key: T -> int, bound: int)
    requires key(x) <= bound && forall i :: 0 <= i < |s| ==> key(s[i]) <= bound
    ensures forall i :: 0 <= i <= |s| ==> key(Insert(s, x, key)[i]) <= bound
  {
    if !(s == [] || key(s[|s| - 1]) <= key(x)) {
      InsertStaysBelow(s[..|s| - 1], x, key, bound);
    }
  }

  /** The result is ordered and holds the same entries. */
  lemma {:induction false} SortByOrders<T>(s: seq<T>, key: T -> int)
    ensures Ordered(SortBy(s, key), key)
    ensures multiset(SortBy(s, key)) == multiset(s)
  {
    if s == [] {
    } else {
      var before := s[..|s| - 1];
      assert s == before + [s[|s| - 1]];
      SortByOrders(before, key);
      InsertOrders(SortBy(before, key), s[|s| - 1], key);
      InsertAdds(SortBy(before, key), s[|s| - 1], key);
    }
  }

  // -------------------------------------------------------------------- stability

  function Mapped<T, U>(s: seq<T>, f: T -> U): (r: seq<U>)
    ensures |r| == |s| && forall i :: 0 <= i < |s| ==> r[i] == f(s[i])
  {
    seq(|s|, i requires 0 <= i < |s| => f(s[i]))
  }

  lemma {:induction false} InsertMaps<T(!new), U>(s: seq<T>, x: T, f: T -> U, key: U -> int, inner: T -> int)
    requires forall t :: inner(t) == key(f(t))
    ensures Mapped(Insert(s, x, inner), f) == Insert(Mapped(s, f), f(x), key)
  {
    if s == [] || inner(s[|s| - 1]) <= inner(x) {
    } else {
      InsertMaps(s[..|s| - 1], x, f, key, inner);
      assert Mapped(s, f)[..|s| - 1] == Mapped(s[..|s| - 1], f);
    }
  }

  /** Sorting looks at keys only. */
  lemma {:induction false} SortMaps<T(!new), U>(s: seq<T>, f: T -> U, key: U -> int, inner: T -> int)
    requires forall t :: inner(t) == key(f(t))
    ensures Mapped(SortBy(s, inner), f) == SortBy(Mapped(s, f), key)
  {
    if s == [] {
    } else {
      SortMaps(s[..|s| - 1], f, key, inner);
      assert Mapped(s, f)[..|s| - 1] == Mapped(s[..|s| - 1], f);
      InsertMaps(SortBy(s[..|s| - 1], inner), s[|s| - 1], f, key, inner);
    }
  }

  /** A position goes before another if its key is less, or as great and the position less. */
  predicate GoesBefore(x: int, y: int, key: int -> int) {
    key(x) < key(y) || (key(x) == key(y) && x < y)
  }

  ghost predicate StablyOrdered(s: seq<int>, key: int -> int) {
    forall i, j :: 0 <= i < j < |s| ==> GoesBefore(s[i], s[j], key)
  }

  lemma InsertMembers(s: seq<int>, x: int, key: int -> int)
    ensures forall y :: y in Insert(s, x, key) <==> y in s || y == x
  {
    InsertAdds(s, x, key);
    forall y ensures y in Insert(s, x, key) <==> y in s || y == x {
      assert y in multiset(Insert(s, x, key)) <==> y in multiset(s) + multiset{x};
    }
  }

  lemma {:induction false} InsertIsStable(s: seq<int>, x: int, key: int -> int)
    requires StablyOrdered(s, key) && forall i :: 0 <= i < |s| ==> s[i] < x
    ensures StablyOrdered(Insert(s, x, key), key)
  {
    if s == [] {
    } else if key(s[|s| - 1]) <= key(x) {
      forall i | 0 <= i < |s| ensures GoesBefore(s[i], x, key) {
        assert i < |s| - 1 ==> GoesBefore(s[i], s[|s| - 1], key);
      }
    } else {
      var before, last := s[..|s| - 1], s[|s| - 1];
      InsertIsStable(before, x, key);
      InsertMembers(before, x, key);
      var r := Insert(before, x, key);
      forall i | 0 <= i < |r| ensures GoesBefore(r[i], last, key) {
        assert r[i] in r;
        assert r[i] in before ==> exists j :: 0 <= j < |before| && s[j] == r[i];
      }
    }
  }

  function UpTo(n: nat): (r: seq<int>)
    ensures |r| == n && forall i :: 0 <= i < n ==> r[i] == i
  {
    seq(n, i => i)
  }

  /** Sorting positions is stable and keeps them all. */
  lemma {:induction false} SortIsStable(n: nat, key: int -> int)
    ensures StablyOrdered(SortBy(UpTo(n), key), key)
    ensures forall x :: x in SortBy(UpTo(n), key) <==> 0 <= x < n
  {
    if n == 0 {
    } else {
      var before := SortBy(UpTo(n - 1), key);
      assert UpTo(n)[..n - 1] == UpTo(n - 1);
      SortIsStable(n - 1, key);
      forall i | 0 <= i < |before| ensures before[i] < n - 1 { assert before[i] in before; }
      InsertIsStable(before, n - 1, key);
      InsertMembers(before, n - 1, key);
    }
  }

  /** An entry found before the last one does not come after it. */
  lemma NoneIsLater<T>(s: seq<T>, b: Option<T>, key: T -> int)
    requires s != [] && Ordered(s, key) && (b.Some? ==> b.value in s[..|s| - 1])
    ensures b.Some? ==> key(b.value) <= key(s[|s| - 1])
  {
    if b.Some? {
      var i :| 0 <= i < |s| - 1 && s[i] == b.value;
    }
  }

  // ------------------------------------------------------- the newest that matches

  /** The matching entry of greatest key; of equal ones the last. */
  function Newest<T>(s: seq<T>, q: T -> bool, key: T -> int): (r: Option<T>)
    ensures r.Some? ==> r.value in s && q(r.value)
  {
    if s == [] then None else Newer(Newest(s[..|s| - 1], q, key), s[|s| - 1], q, key)
  }

  function Newer<T>(best: Option<T>, x: T, q: T -> bool, key: T -> int): Option<T> {
    if q(x) && (best.None? || key(best.value) <= key(x)) then Some(x) else best
  }

  /** Newest is what its name says. */
  lemma {:induction false} NewestIsGreatest<T>(s: seq<T>, q: T -> bool, key: T -> int)
    ensures Newest(s, q, key).None? <==> forall x :: x in s ==> !q(x)
    ensures forall x :: x in s && q(x) ==> key(x) <= key(Newest(s, q, key).value)
  {
    if s == [] {
    } else {
      NewestIsGreatest(s[..|s| - 1], q, key);
      assert s == s[..|s| - 1] + [s[|s| - 1]];
    }
  }

  lemma {:induction false} InsertKeepsNewest<T>(s: seq<T>, x: T, q: T -> bool, key: T -> int)
    requires Ordered(s, key)
    ensures Newest(Insert(s, x, key), q, key) == Newer(Newest(s, q, key), x, q, key)
  {
    if s == [] || key(s[|s| - 1]) <= key(x) {
      assert (s + [x])[..|s|] == s;
    } else {
      var before, y := s[..|s| - 1], s[|s| - 1];
      InsertKeepsNewest(before, x, q, key);
      var r := Insert(before, x, key);
      assert (r + [y])[..|r|] == r;
      NoneIsLater(s, Newest(before, q, key), key);
    }
  }

  /** Sorting first does not change which entry is the newest. */
  lemma {:induction false} SortingKeepsNewest<T>(s: seq<T>, q: T -> bool, key: T -> int)
    ensures Newest(SortBy(s, key), q, key) == Newest(s, q, key)
  {
    if s == [] {
    } else {
      var before, x := s[..|s| - 1], s[|s| - 1];
      SortingKeepsNewest(before, q, key);
      SortByOrders(before, key);
      InsertKeepsNewest(SortBy(before, key), x, q, key);
    }
  }

  // ----------------------------------------------------- the earliest that matches

  /** The matching entry of least key; of equal ones the first. */
  function Earliest<T>(s: seq<T>, q: T -> bool, key: T -> int): (r: Option<T>)
    ensures r.Some? ==> r.value in s && q(r.value)
  {
    if s == [] then None else Earlier(Earliest(s[..|s| - 1], q, key), s[|s| - 1], q, key)
  }

  function Earlier<T>(best: Option<T>, x: T, q: T -> bool, key: T -> int): Option<T> {
    if q(x) && (best.None? || key(x) < key(best.value)) then Some(x) else best
  }

  /** Earliest is what its name says. */
  lemma {:induction false} EarliestIsLeast<T>(s: seq<T>, q: T -> bool, key: T -> int)
    ensures Earliest(s, q, key).None? <==> forall x :: x in s ==> !q(x)
    ensures forall x :: x in s && q(x) ==> key(Earliest(s, q, key).value) <= key(x)
  {
    if s == [] {
    } else {
      EarliestIsLeast(s[..|s| - 1], q, key);
      assert s == s[..|s| - 1] + [s[|s| - 1]];
    }
  }

  lemma {:induction false} InsertKeepsEarliest<T>(s: seq<T>, x: T, q: T -> bool, key: T -> int)
    requires Ordered(s, key)
    ensures Earliest(Insert(s, x, key), q, key) == Earlier(Earliest(s, q, key), x, q, key)
  {
    if s == [] || key(s[|s| - 1]) <= key(x) {
      assert (s + [x])[..|s|] == s;
    } else {
      var before, y := s[..|s| - 1], s[|s| - 1];
      InsertKeepsEarliest(before, x, q, key);
      var r := Insert(before, x, key);
      assert (r + [y])[..|r|] == r;
      NoneIsLater(s, Earliest(before, q, key), key);
    }
  }

  lemma {:induction false} SortingKeepsEarliest<T>(s: seq<T>, q: T -> bool, key: T -> int)
    ensures Earliest(SortBy(s, key), q, key) == Earliest(s, q, key)
  {
    if s == [] {
    } else {
      var before, x := s[..|s| - 1], s[|s| - 1];
      SortingKeepsEarliest(before, q, key);
      SortByOrders(before, key);
      InsertKeepsEarliest(SortBy(before, key), x, q, key);
    }
  }

  /** next((x for x in s if q(x)), None), on an ordered list. */
  method First<T>(s: seq<T>, q: T -> bool, ghost key: T -> int) returns (r: Option<T>)
    requires Ordered(s, key)
    ensures r == Earliest(s, q, key)
  {
    for i := 0 to |s|
      invariant Earliest(s[..i], q, key) == None
    {
      assert s[..i + 1][..i] == s[..i];
      if q(s[i]) {
        KeepsFirst(s, i + 1, q, key);
        return Some(s[i]);
      }
    }
    assert s[..|s|] == s;
    r := None;
  }

  lemma {:induction false} KeepsFirst<T>(s: seq<T>, i: nat, q: T -> bool, key: T -> int)
    requires Ordered(s, key) && 0 < i <= |s|
    requires Earliest(s[..i], q, key) == Some(s[i - 1])
    ensures Earliest(s, q, key) == Some(s[i - 1])
    decreases |s|
  {
    if i < |s| {
      var before := s[..|s| - 1];
      assert before[..i] == s[..i];
      KeepsFirst(before, i, q, key);
    } else {
      assert s[..i] == s;
    }
  }
}
