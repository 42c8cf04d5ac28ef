/** How often a value that survives a walk clashes with what it meets.
  *
  * The walk keeps its first value, but trades a negative one for the first
  * value that is not; each different value it meets is a clash.
  */
module Survivors {

  function Survivor<T>(xs: seq<T>, negative: T -> bool): T
    requires xs != []
  {
    var last := xs[|xs| - 1];
    if |xs| == 1 then last
    else
      var current := Survivor(xs[..|xs| - 1], negative);
      if negative(current) && !negative(last) then last else current
  }

  function Clashes<T(==)>(xs: seq<T>, negative: T -> bool): nat {
    if |xs| <= 1 then 0
    else
      var before := xs[..|xs| - 1];
      Clashes(before, negative) + if Survivor(before, negative) != xs[|xs| - 1] then 1 else 0
  }

  /** Where the first value that is not negative stands; the length if there is none. */
  function Lead<T>(xs: seq<T>, negative: T -> bool): (n: nat)
    ensures n <= |xs|
    ensures forall i :: 0 <= i < n ==> negative(xs[i])
    ensures n < |xs| ==> !negative(xs[n])
  {
    if xs == [] then 0
    else
      var before := xs[..|xs| - 1];
      var n := Lead(before, negative);
      if n < |before| then n else if negative(xs[|xs| - 1]) then |xs| else |before|
  }

  lemma {:induction false} SurvivorLeads<T>(xs: seq<T>, negative: T -> bool)
    requires xs != []
    ensures var n := Lead(xs, negative); Survivor(xs, negative) == xs[if n < |xs| then n else 0]
  {
    if |xs| == 1 {
    } else {
      var before := xs[..|xs| - 1];
      SurvivorLeads(before, negative);
      assert negative(Survivor(before, negative)) <==> Lead(before, negative) == |before|;
    }
  }

  /** One more value on the walk. */
  lemma WalkOn<T>(xs: seq<T>, negative: T -> bool, x: T)
    ensures Survivor(xs + [x], negative)
            == if xs == [] || (negative(Survivor(xs, negative)) && !negative(x)) then x else Survivor(xs, negative)
    ensures Clashes(xs + [x], negative)
            == Clashes(xs, negative) + if xs != [] && Survivor(xs, negative) != x then 1 else 0
  {
    assert (xs + [x])[..|xs|] == xs;
  }

  lemma Snoc<T>(xs: seq<T>, x: T)
    requires xs != []
    ensures multiset(xs)[x] == multiset(xs[..|xs| - 1])[x] + if xs[|xs| - 1] == x then 1 else 0
  {
    assert xs == xs[..|xs| - 1] + [xs[|xs| - 1]];
  }

  /** The number of clashes, from the multiplicities of the values. */
  lemma {:induction false} ClashesClosedForm<T>(xs: seq<T>, negative: T -> bool)
    requires xs != []
    ensures var n := Lead(xs, negative);
            Clashes(xs, negative) ==
            if n == 0 || n == |xs| then |xs| - multiset(xs)[xs[0]]
            else |xs| - multiset(xs[..n])[xs[0]] - multiset(xs)[xs[n]] + 1
  {
    if |xs| == 1 {
      assert xs == [xs[0]];
    } else {
      var before, last, n := xs[..|xs| - 1], xs[|xs| - 1], Lead(xs, negative);
      ClashesClosedForm(before, negative);
      SurvivorLeads(before, negative);
      Snoc(xs, xs[0]);
      if n == 0 || n == |xs| {
        assert before[0] == xs[0];
      } else {
        Snoc(xs, xs[n]);
        if n == |before| {
          assert xs[..n] == before;
          NoneBefore(before, last, negative);
        } else {
          assert xs[..n] == before[..n];
        }
      }
    }
  }

  lemma NoneBefore<T>(xs: seq<T>, x: T, negative: T -> bool)
    requires !negative(x) && forall i :: 0 <= i < |xs| ==> negative(xs[i])
    ensures multiset(xs)[x] == 0
  {
    assert x !in xs;
  }

  predicate EquallyOften<T(==)>(xs: seq<T>, x: T, y: T) { multiset(xs)[x] == multiset(xs)[y] }

  /** All values that are not negative occur equally often, and then no negative one occurs
    * twice; if all are negative, these occur equally often. */
  ghost predicate Balanced<T(!new)>(xs: seq<T>, negative: T -> bool) {
    if forall x :: x in xs ==> negative(x) then
      forall x, y :: x in xs && y in xs ==> EquallyOften(xs, x, y)
    else
      && (forall x, y :: x in xs && y in xs && !negative(x) && !negative(y) ==> EquallyOften(xs, x, y))
      && (forall x :: x in xs && negative(x) ==> multiset(xs)[x] == 1)
  }

  lemma SameMembers<T(!new)>(xs: seq<T>, ys: seq<T>)
    requires multiset(xs) == multiset(ys)
    ensures |xs| == |ys| && forall x :: x in xs <==> x in ys
  {
    assert |multiset(xs)| == |xs| && |multiset(ys)| == |ys|;
    forall x ensures x in xs <==> x in ys {
      assert x in multiset(xs) <==> x in multiset(ys);
    }
  }

  /** A balanced walk clashes as often in every order. */
  lemma BalancedClashes<T(!new)>(xs: seq<T>, negative: T -> bool, x: T)
    requires Balanced(xs, negative)
    requires x in xs && (negative(x) ==> forall y :: y in xs ==> negative(y))
    ensures Clashes(xs, negative) == |xs| - multiset(xs)[x]
  {
    ClashesClosedForm(xs, negative);
    var n := Lead(xs, negative);
    assert xs[0] in xs;
    if n < |xs| {
      assert xs[n] in xs && !negative(x);
      assert EquallyOften(xs, x, xs[n]);
      if n > 0 { LeadsOnce(xs, n); }
    } else {
      assert negative(x);
      assert EquallyOften(xs, x, xs[0]);
    }
  }

  lemma LeadsOnce<T>(xs: seq<T>, n: nat)
    requires 0 < n <= |xs| && multiset(xs)[xs[0]] == 1
    ensures multiset(xs[..n])[xs[0]] == 1
  {
    assert xs == xs[..n] + xs[n..];
    assert xs[..n][0] == xs[0];
    assert xs[0] in multiset(xs[..n]);
  }

  /** A walk that begins with a survivor clashes with everything else. */
  lemma FrontClashes<T>(xs: seq<T>, negative: T -> bool)
    requires xs != [] && (!negative(xs[0]) || forall x :: x in xs ==> negative(x))
    ensures Clashes(xs, negative) == |xs| - multiset(xs)[xs[0]]
  {
    ClashesClosedForm(xs, negative);
    var n := Lead(xs, negative);
    assert n < |xs| ==> xs[n] in xs;
  }

  /** Two equal negative values at the front save a clash. */
  lemma TwiceInFront<T>(xs: seq<T>, negative: T -> bool, x: T)
    requires |xs| > 1 && xs[0] == xs[1] && negative(xs[0])
    requires x in xs && !negative(x)
    requires forall y :: y in xs && !negative(y) ==> EquallyOften(xs, x, y)
    ensures Clashes(xs, negative) < |xs| - multiset(xs)[x]
  {
    ClashesClosedForm(xs, negative);
    var n := Lead(xs, negative);
    var i :| 0 <= i < |xs| && xs[i] == x;
    assert xs[n] in xs && EquallyOften(xs, x, xs[n]);
    TwoCopies(xs, n);
  }

  lemma TwoCopies<T>(xs: seq<T>, n: nat)
    requires 1 < n <= |xs| && xs[0] == xs[1]
    ensures multiset(xs[..n])[xs[0]] >= 2
  {
    var x := xs[0];
    assert xs[..n] == [x, x] + xs[2..n];
    assert multiset(xs[..n]) == multiset([x, x]) + multiset(xs[2..n]);
  }
}
