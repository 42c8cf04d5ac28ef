/** Text helpers: the case of ASCII letters, and surrounding white space. */
module Text {

  /** What Python's strip, split and \s take for white space. */
  predicate IsSpace(c: char) {
    var n := c as int;
    || 9 <= n <= 13 || 28 <= n <= 32 || n == 0x85 || n == 0xA0 || n == 0x1680 || 0x2000 <= n <= 0x200A
    || n == 0x2028 || n == 0x2029 || n == 0x202F || n == 0x205F || n == 0x3000
  }

  function LowerChar(c: char): char {
    if 'A' <= c <= 'Z' then (c as int + 32) as char else c
  }

  function Lower(s: string): (r: string)
    ensures |r| == |s|
    ensures forall i :: 0 <= i < |s| ==> r[i] == LowerChar(s[i])
  {
    seq(|s|, i requires 0 <= i < |s| => LowerChar(s[i]))
  }

  function UpperChar(c: char): char {
    if 'a' <= c <= 'z' then (c as int - 32) as char else c
  }

  function Upper(s: string): string {
    seq(|s|, i requires 0 <= i < |s| => UpperChar(s[i]))
  }

  function TrimLeft(s: string): string {
    if s != "" && IsSpace(s[0]) then TrimLeft(s[1..]) else s
  }

  function TrimRight(s: string): string {
    if s != "" && IsSpace(s[|s| - 1]) then TrimRight(s[..|s| - 1]) else s
  }

  function Strip(s: string): string { TrimRight(TrimLeft(s)) }

  /** All that lies outside these bounds is blank. */
  predicate IsPadded(s: string, a: int, b: int) {
    0 <= a <= b <= |s| && forall i :: 0 <= i < |s| && (i < a || b <= i) ==> IsSpace(s[i])
  }

  lemma {:induction false} TrimLeftIs(s: string) returns (a: nat)
    ensures a <= |s| && TrimLeft(s) == s[a..]
    ensures forall i :: 0 <= i < a ==> IsSpace(s[i])
    ensures a < |s| ==> !IsSpace(s[a])
  {
    if s != "" && IsSpace(s[0]) {
      var n := TrimLeftIs(s[1..]);
      a := n + 1;
      forall i | 0 <= i < a ensures IsSpace(s[i]) { assert i > 0 ==> s[i] == s[1..][i - 1]; }
    } else {
      a := 0;
    }
  }

  lemma {:induction false} TrimRightIs(s: string) returns (b: nat)
    ensures b <= |s| && TrimRight(s) == s[..b]
    ensures forall i :: b <= i < |s| ==> IsSpace(s[i])
    ensures b > 0 ==> !IsSpace(s[b - 1])
  {
    if s != "" && IsSpace(s[|s| - 1]) {
      b := TrimRightIs(s[..|s| - 1]);
      assert s[..|s| - 1][..b] == s[..b];
    } else {
      b := |s|;
      assert s[..b] == s;
    }
  }

  /** strip cuts off the blanks at both ends and nothing else. */
  lemma StripIs(s: string) returns (a: nat, b: nat)
    ensures IsPadded(s, a, b) && Strip(s) == s[a..b]
    ensures a < b ==> !IsSpace(s[a]) && !IsSpace(s[b - 1])
  {
    a := TrimLeftIs(s);
    var n := TrimRightIs(s[a..]);
    b := a + n;
    assert s[a..][..n] == s[a..b];
    forall i | b <= i < |s| ensures IsSpace(s[i]) { assert s[i] == s[a..][i - a]; }
  }
}
