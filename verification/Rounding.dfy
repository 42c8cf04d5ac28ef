/** Python's round on exact rationals: halves go to the even neighbour. */
module Rounding {

  function Round(x: real): int {
    var down := x.Floor;
    var rest := x - down as real;
    if rest < 0.5 || (rest == 0.5 && down % 2 == 0) then down else down + 1
  }

  lemma RoundIsMonotone(x: real, y: real)
    requires x <= y
    ensures Round(x) <= Round(y)
  {
    if x.Floor == y.Floor {
    } else {
      assert x.Floor + 1 <= y.Floor;
    }
  }

  lemma RoundNearest(x: real)
    ensures Round(x) as real - 0.5 <= x <= Round(x) as real + 0.5
    ensures x == x.Floor as real ==> Round(x) == x.Floor
  {
  }

  /** passed of total, as a whole percentage. */
  function Percent(passed: int, total: int): int
    requires total > 0
  {
    Round(passed as real / total as real * 100.0)
  }

  lemma DivideMonotone(p: int, t: int, q: int, u: int)
    requires t > 0 && u > 0 && p * u <= q * t
    ensures p as real / t as real <= q as real / u as real
  {
    var a, b := p as real / t as real, q as real / u as real;
    assert a * t as real == p as real && b * u as real == q as real;
  }

  /** A larger ratio never rounds to a smaller percentage. */
  lemma PercentIsMonotone(p: int, t: int, q: int, u: int)
    requires t > 0 && u > 0 && p * u <= q * t
    ensures Percent(p, t) <= Percent(q, u)
  {
    DivideMonotone(p, t, q, u);
    RoundIsMonotone(p as real / t as real * 100.0, q as real / u as real * 100.0);
  }

  lemma PercentInRange(p: int, t: int)
    requires 0 <= p <= t && t > 0
    ensures 0 <= Percent(p, t) <= 100
  {
    DivideMonotone(0, 1, p, t);
    DivideMonotone(p, t, 1, 1);
    RoundIsMonotone(0.0, p as real / t as real * 100.0);
    RoundIsMonotone(p as real / t as real * 100.0, 100.0);
    RoundNearest(0.0);
    RoundNearest(100.0);
  }

  /** No whole percentage is nearer to passed of total, and of two as near it is the even one. */
  predicate IsNearest(percent: int, passed: int, total: int) {
    var off := 100 * passed - percent * total;
    && -total <= 2 * off <= total
    && (2 * off == total || 2 * off == -total ==> percent % 2 == 0)
  }

  lemma PercentIsNearest(p: int, t: int)
    requires t > 0
    ensures IsNearest(Percent(p, t), p, t)
  {
    var q, m := 100 * p / t, 100 * p % t;
    assert 100 * p == q * t + m;
    var share := m as real / t as real;
    Split(p, t, q, m);
    ShareOfOne(m, t);
    assert (p as real / t as real * 100.0).Floor == q;
    assert Percent(p, t) == if 2 * m < t || (2 * m == t && q % 2 == 0) then q else q + 1;
    assert (q + 1) * t == q * t + t;
  }

  /** A ratio as its whole part and the rest. */
  lemma Split(p: int, t: int, q: int, m: int)
    requires t > 0 && 100 * p == q * t + m
    ensures p as real / t as real * 100.0 == q as real + m as real / t as real
  {
    var x, y := p as real / t as real * 100.0, q as real + m as real / t as real;
    var a, b := p as real / t as real, m as real / t as real;
    assert a * t as real == p as real && b * t as real == m as real;
    assert x * t as real == 100.0 * (a * t as real);
    assert y * t as real == q as real * t as real + b * t as real;
    assert q as real * t as real == (q * t) as real;
    SameRatio(x, y, t as real);
  }

  lemma SameRatio(x: real, y: real, t: real)
    requires t > 0.0 && x * t == y * t
    ensures x == y
  {
    assert (x - y) * t == 0.0;
  }

  lemma ShareOfOne(m: int, t: int)
    requires 0 <= m < t
    ensures 0.0 <= m as real / t as real < 1.0
    ensures m as real / t as real < 0.5 <==> 2 * m < t
    ensures m as real / t as real == 0.5 <==> 2 * m == t
  {
    var b := m as real / t as real;
    assert b * t as real == m as real;
    Times(0.5 - b, t as real);
    assert (0.5 - b) * t as real == 0.5 * t as real - m as real;
  }

  lemma Times(x: real, t: real)
    requires t > 0.0
    ensures x > 0.0 <==> x * t > 0.0
    ensures x == 0.0 <==> x * t == 0.0
  {
  }
}
