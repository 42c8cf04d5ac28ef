/** What a line pattern finds, stated by positions in the text. */
module LinePatterns {
  import opened Common
  import opened CliLexer
  import Text

  /** These words, in any letter case, follow one another from the i-th line on. */
  predicate Begins(lines: seq<Line>, i: int, ws: seq<string>) {
    && 0 <= i < |lines| && lines[i].words != []
    && var rest := Flat(lines[i..]);
    |rest| >= |ws| && forall j :: 0 <= j < |ws| ==> Text.Lower(rest[j]) == ws[j]
  }

  /** The same, with one more word, which is v. */
  predicate Gives(lines: seq<Line>, i: int, ws: seq<string>, v: string) {
    Begins(lines, i, ws) && |Flat(lines[i..])| > |ws| && Flat(lines[i..])[|ws|] == v
  }

  predicate InWord(c: char) { c == '_' || '0' <= c <= '9' || 'A' <= c <= 'Z' || 'a' <= c <= 'z' }

  /** The word w is k, or goes on with something that is no part of a word. */
  predicate Ends(w: string, k: string) {
    |k| <= |w| && Text.Lower(w[..|k|]) == k && (|k| == |w| || !InWord(w[|k|]))
  }

  /** The words of ws follow one another from the i-th line on, and the last ends there. */
  predicate SaysAt(lines: seq<Line>, i: int, ws: seq<string>)
    requires ws != []
  {
    var n := |ws| - 1;
    Begins(lines, i, ws[..n]) && |Flat(lines[i..])| > n && Ends(Flat(lines[i..])[n], ws[n])
  }

  ghost predicate Says(lines: seq<Line>, ws: seq<string>)
    requires ws != []
  {
    exists i :: SaysAt(lines, i, ws)
  }

  /** The first line to give a value gives this one. */
  ghost predicate GivesFirst(lines: seq<Line>, ws: seq<string>, v: string) {
    exists i :: Gives(lines, i, ws, v) && forall j :: 0 <= j < i ==> !GivesAny(lines, j, ws)
  }

  predicate GivesAny(lines: seq<Line>, i: int, ws: seq<string>) { Begins(lines, i, ws) && |Flat(lines[i..])| > |ws| }

  ghost predicate NoneGives(lines: seq<Line>, ws: seq<string>) { forall i :: !GivesAny(lines, i, ws) }

  // --------------------------------------------------------------------- moving on

  lemma Shift(lines: seq<Line>, i: int, ws: seq<string>)
    requires lines != [] && i > 0
    ensures Begins(lines, i, ws) <==> Begins(lines[1..], i - 1, ws)
    ensures i < |lines| ==> lines[1..][i - 1..] == lines[i..]
  {
    if i < |lines| { assert lines[1..][i - 1..] == lines[i..]; }
  }

  lemma SaysLater(lines: seq<Line>, ws: seq<string>)
    requires ws != [] && lines != []
    ensures Says(lines, ws) <==> SaysAt(lines, 0, ws) || Says(lines[1..], ws)
  {
    forall i | i > 0 ensures SaysAt(lines, i, ws) <==> SaysAt(lines[1..], i - 1, ws) { Shift(lines, i, ws[..|ws| - 1]); }
    if Says(lines[1..], ws) {
      var i :| SaysAt(lines[1..], i, ws);
      assert SaysAt(lines, i + 1, ws);
    }
    if Says(lines, ws) {
      var i :| SaysAt(lines, i, ws);
      if i > 0 { assert SaysAt(lines[1..], i - 1, ws); }
    }
  }

  /** A phrase pattern matches exactly if some line says it. */
  lemma {:induction false} PhraseExactly(lines: seq<Line>, ws: seq<string>)
    requires ws != []
    ensures HasPhrase(lines, ws) <==> Says(lines, ws)
  {
    if lines == [] {
    } else {
      PhraseExactly(lines[1..], ws);
      SaysLater(lines, ws);
      assert lines[0..] == lines;
      assert PhraseAt(lines, ws) <==> SaysAt(lines, 0, ws);
    }
  }

  lemma CaptureGives(lines: seq<Line>, ws: seq<string>)
    ensures CaptureAt(lines, ws).Some? <==> GivesAny(lines, 0, ws)
    ensures CaptureAt(lines, ws).Some? ==> Gives(lines, 0, ws, CaptureAt(lines, ws).value)
  {
    if lines != [] { assert lines[0..] == lines; }
  }

  lemma GivesLater(lines: seq<Line>, ws: seq<string>, v: string)
    requires lines != [] && !GivesAny(lines, 0, ws)
    ensures GivesFirst(lines, ws, v) <==> GivesFirst(lines[1..], ws, v)
    ensures NoneGives(lines, ws) <==> NoneGives(lines[1..], ws)
  {
    forall i | i > 0
      ensures GivesAny(lines, i, ws) <==> GivesAny(lines[1..], i - 1, ws)
      ensures Gives(lines, i, ws, v) <==> Gives(lines[1..], i - 1, ws, v)
    {
      Shift(lines, i, ws);
    }
    if GivesFirst(lines, ws, v) {
      var i :| Gives(lines, i, ws, v) && forall j :: 0 <= j < i ==> !GivesAny(lines, j, ws);
      assert Gives(lines[1..], i - 1, ws, v);
      forall j | 0 <= j < i - 1 ensures !GivesAny(lines[1..], j, ws) { assert !GivesAny(lines, j + 1, ws); }
    }
    if GivesFirst(lines[1..], ws, v) {
      var i :| Gives(lines[1..], i, ws, v) && forall j :: 0 <= j < i ==> !GivesAny(lines[1..], j, ws);
      assert Gives(lines, i + 1, ws, v);
      forall j | 0 <= j < i + 1 ensures !GivesAny(lines, j, ws) { if j > 0 { assert !GivesAny(lines[1..], j - 1, ws); } }
    }
    if NoneGives(lines[1..], ws) {
      forall i ensures !GivesAny(lines, i, ws) { if i > 0 { assert !GivesAny(lines[1..], i - 1, ws); } }
    }
    if NoneGives(lines, ws) {
      forall i ensures !GivesAny(lines[1..], i, ws) { if i >= 0 { assert !GivesAny(lines, i + 1, ws); } }
    }
  }

  /** A value pattern finds the value the first line to give one gives. */
  lemma {:induction false} FirstExactly(lines: seq<Line>, ws: seq<string>, v: string)
    ensures FindFirst(lines, ws) == Some(v) <==> GivesFirst(lines, ws, v)
    ensures FindFirst(lines, ws) == None <==> NoneGives(lines, ws)
  {
    if lines == [] {
    } else {
      CaptureGives(lines, ws);
      if GivesAny(lines, 0, ws) {
        if GivesFirst(lines, ws, v) {
          var i :| Gives(lines, i, ws, v) && forall j :: 0 <= j < i ==> !GivesAny(lines, j, ws);
          assert i == 0;
        }
      } else {
        FirstExactly(lines[1..], ws, v);
        GivesLater(lines, ws, v);
      }
    }
  }

  // ------------------------------------------------------------------- all values

  /** No value stands on another line than the words before it. */
  ghost predicate OnOneLine(lines: seq<Line>, ws: seq<string>) {
    forall i :: GivesAny(lines, i, ws) ==> |lines[i].words| > |ws|
  }

  /** The word after ws on each line that begins with them. */
  function PerLine(lines: seq<Line>, ws: seq<string>): seq<string> {
    if lines == [] then []
    else
      var w := lines[0].words;
      (if |w| > |ws| && (forall j :: 0 <= j < |ws| ==> Text.Lower(w[j]) == ws[j]) then [w[|ws|]] else [])
      + PerLine(lines[1..], ws)
  }

  lemma FlatFirst(lines: seq<Line>)
    requires lines != []
    ensures |Flat(lines)| >= |lines[0].words|
    ensures forall j :: 0 <= j < |lines[0].words| ==> Flat(lines)[j] == lines[0].words[j]
  {
  }

  /** Where no value is on another line, the pattern finds the value of every line, in order. */
  lemma {:induction false} AllExactly(lines: seq<Line>, ws: seq<string>)
    requires OnOneLine(lines, ws)
    ensures FindAll(lines, ws) == PerLine(lines, ws)
    decreases |lines|
  {
    if lines == [] {
    } else {
      OnOneLineLater(lines, ws);
      AllExactly(lines[1..], ws);
      CaptureGives(lines, ws);
      FlatFirst(lines);
      if GivesAny(lines, 0, ws) {
        assert |lines[0].words| > |ws|;
        assert Rest(lines[1..], |ws| + 1 - |lines[0].words|) == lines[1..];
        assert lines[0..] == lines;
      } else {
        NoValueHere(lines, ws);
      }
    }
  }

  lemma NoValueHere(lines: seq<Line>, ws: seq<string>)
    requires lines != [] && !GivesAny(lines, 0, ws)
    ensures var w := lines[0].words; !(|w| > |ws| && forall j :: 0 <= j < |ws| ==> Text.Lower(w[j]) == ws[j])
  {
    FlatFirst(lines);
    assert lines[0..] == lines;
  }

  lemma OnOneLineLater(lines: seq<Line>, ws: seq<string>)
    requires lines != [] && OnOneLine(lines, ws)
    ensures OnOneLine(lines[1..], ws)
  {
    forall i | GivesAny(lines[1..], i, ws) ensures |lines[1..][i].words| > |ws| {
      Shift(lines, i + 1, ws);
      assert GivesAny(lines, i + 1, ws);
    }
  }

  /** In any case whatever is found is given by some line. */
  lemma {:induction false} AllAreGiven(lines: seq<Line>, ws: seq<string>, v: string) returns (i: int)
    requires v in FindAll(lines, ws)
    ensures Gives(lines, i, ws, v)
    decreases |lines|
  {
    CaptureGives(lines, ws);
    match CaptureAt(lines, ws) {
      case Some(w) =>
        if v == w {
          i := 0;
        } else {
          var n := |ws| + 1 - |lines[0].words|;
          var k := RestIs(lines[1..], n);
          i := AllAreGiven(Rest(lines[1..], n), ws, v);
          i := i + k + 1;
          assert lines[1..][k..][i - k - 1..] == lines[i..];
        }
      case None =>
        i := AllAreGiven(lines[1..], ws, v);
        i := i + 1;
        Shift(lines, i, ws);
    }
  }

  lemma {:induction false} RestIs(lines: seq<Line>, n: int) returns (k: nat)
    ensures k <= |lines| && Rest(lines, n) == lines[k..]
  {
    if lines == [] || n <= 0 {
      k := 0;
    } else {
      k := RestIs(lines[1..], n - |lines[0].words|);
      k := k + 1;
    }
  }

  // ------------------------------------------------------------- values that end a line

  /** The first n words are those of whole lines. */
  ghost predicate EndsThere(lines: seq<Line>, n: int) {
    exists m :: IsCut(lines, m, n)
  }

  predicate IsCut(lines: seq<Line>, m: int, n: int) { 1 <= m <= |lines| && |Flat(lines[..m])| == n }

  lemma CutLater(lines: seq<Line>, m: int, n: int)
    requires lines != [] && m > 1
    ensures IsCut(lines, m, n) <==> IsCut(lines[1..], m - 1, n - |lines[0].words|)
  {
    if m <= |lines| { assert lines[..m][1..] == lines[1..][..m - 1]; }
  }

  lemma {:induction false} EndsExactly(lines: seq<Line>, n: int)
    requires n > 0
    ensures EndsLine(lines, n) <==> EndsThere(lines, n)
  {
    if lines == [] {
    } else {
      var k := |lines[0].words|;
      assert lines[..1] == [lines[0]] && [lines[0]][1..] == [];
      assert Flat(lines[..1]) == lines[0].words + [] == lines[0].words;
      assert IsCut(lines, 1, n) <==> n == k;
      if n > k { EndsExactly(lines[1..], n - k); }
      if EndsThere(lines, n) {
        var m :| IsCut(lines, m, n);
        if m > 1 {
          CutLater(lines, m, n);
          FlatFirst(lines[..m]);
        }
      }
      if n > k && EndsThere(lines[1..], n - k) {
        var m :| IsCut(lines[1..], m, n - k);
        CutLater(lines, m + 1, n);
      }
    }
  }

  /** The i-th line gives this value, one of the choices, and it ends its line. */
  ghost predicate GivesChoice(lines: seq<Line>, i: int, ws: seq<string>, choices: set<string>, v: string) {
    Gives(lines, i, ws, v) && v in choices && EndsThere(lines[i..], |ws| + 1)
  }

  ghost predicate GivesSomeChoice(lines: seq<Line>, i: int, ws: seq<string>, choices: set<string>) {
    exists v :: GivesChoice(lines, i, ws, choices, v)
  }

  ghost predicate ChoosesFirst(lines: seq<Line>, ws: seq<string>, choices: set<string>, v: string) {
    exists i :: GivesChoice(lines, i, ws, choices, v) && forall j :: 0 <= j < i ==> !GivesSomeChoice(lines, j, ws, choices)
  }

  lemma ChoiceLater(lines: seq<Line>, i: int, ws: seq<string>, choices: set<string>)
    requires lines != [] && i > 0
    ensures forall v :: GivesChoice(lines, i, ws, choices, v) <==> GivesChoice(lines[1..], i - 1, ws, choices, v)
    ensures GivesSomeChoice(lines, i, ws, choices) <==> GivesSomeChoice(lines[1..], i - 1, ws, choices)
  {
    forall v ensures GivesChoice(lines, i, ws, choices, v) <==> GivesChoice(lines[1..], i - 1, ws, choices, v) {
      Shift(lines, i, ws);
    }
    if GivesSomeChoice(lines, i, ws, choices) {
      var v :| GivesChoice(lines, i, ws, choices, v);
      assert GivesChoice(lines[1..], i - 1, ws, choices, v);
    }
    if GivesSomeChoice(lines[1..], i - 1, ws, choices) {
      var v :| GivesChoice(lines[1..], i - 1, ws, choices, v);
      assert GivesChoice(lines, i, ws, choices, v);
    }
  }

  lemma ChoiceHere(lines: seq<Line>, ws: seq<string>, choices: set<string>, v: string)
    requires lines != []
    ensures GivesChoice(lines, 0, ws, choices, v) <==>
            CaptureAt(lines, ws) == Some(v) && v in choices && EndsLine(lines, |ws| + 1)
  {
    assert lines[0..] == lines;
    CaptureGives(lines, ws);
    EndsExactly(lines, |ws| + 1);
  }

  /** A pattern of choices finds the one that the first line to give one gives. */
  lemma {:induction false} ChoiceExactly(lines: seq<Line>, ws: seq<string>, choices: set<string>, v: string)
    ensures FindLast(lines, ws, choices) == Some(v) <==> ChoosesFirst(lines, ws, choices, v)
  {
    if lines == [] {
    } else {
      forall w ensures GivesChoice(lines, 0, ws, choices, w) <==>
                       CaptureAt(lines, ws) == Some(w) && w in choices && EndsLine(lines, |ws| + 1)
      {
        ChoiceHere(lines, ws, choices, w);
      }
      if GivesSomeChoice(lines, 0, ws, choices) {
        ChosenHere(lines, ws, choices, v);
      } else {
        ChoiceExactly(lines[1..], ws, choices, v);
        ChosenLater(lines, ws, choices, v);
      }
    }
  }

  lemma ChosenHere(lines: seq<Line>, ws: seq<string>, choices: set<string>, v: string)
    requires lines != [] && GivesSomeChoice(lines, 0, ws, choices)
    ensures ChoosesFirst(lines, ws, choices, v) <==> GivesChoice(lines, 0, ws, choices, v)
  {
    if ChoosesFirst(lines, ws, choices, v) {
      var i :| GivesChoice(lines, i, ws, choices, v) && forall j :: 0 <= j < i ==> !GivesSomeChoice(lines, j, ws, choices);
      assert i == 0;
    }
  }

  lemma ChosenLater(lines: seq<Line>, ws: seq<string>, choices: set<string>, v: string)
    requires lines != [] && !GivesSomeChoice(lines, 0, ws, choices)
    ensures ChoosesFirst(lines, ws, choices, v) <==> ChoosesFirst(lines[1..], ws, choices, v)
  {
    if ChoosesFirst(lines, ws, choices, v) {
      var i :| GivesChoice(lines, i, ws, choices, v) && forall j :: 0 <= j < i ==> !GivesSomeChoice(lines, j, ws, choices);
      ChoiceLater(lines, i, ws, choices);
      forall j | 0 <= j < i - 1 ensures !GivesSomeChoice(lines[1..], j, ws, choices) { ChoiceLater(lines, j + 1, ws, choices); }
    }
    if ChoosesFirst(lines[1..], ws, choices, v) {
      var i :| GivesChoice(lines[1..], i, ws, choices, v)
               && forall j :: 0 <= j < i ==> !GivesSomeChoice(lines[1..], j, ws, choices);
      ChoiceLater(lines, i + 1, ws, choices);
      forall j | 0 <= j < i + 1 ensures !GivesSomeChoice(lines, j, ws, choices) {
        if j > 0 { ChoiceLater(lines, j, ws, choices); }
      }
    }
  }

  // ------------------------------------------------------------ words further along a line

  /** w is one of the words after the first n that share a line with the next one. */
  ghost predicate Along(lines: seq<Line>, n: int, w: string) {
    exists k :: HoldsNext(lines, k, n) && w in lines[k].words[n - |Flat(lines[..k])|..]
  }

  /** The word after the first n stands on the k-th line. */
  predicate HoldsNext(lines: seq<Line>, k: int, n: int) {
    0 <= k < |lines| && |Flat(lines[..k])| <= n < |Flat(lines[..k])| + |lines[k].words|
  }

  lemma NextLater(lines: seq<Line>, k: int, n: int)
    requires lines != [] && 0 < k <= |lines|
    ensures |Flat(lines[..k])| == |lines[0].words| + |Flat(lines[1..][..k - 1])|
    ensures k < |lines| ==> (HoldsNext(lines, k, n) <==> HoldsNext(lines[1..], k - 1, n - |lines[0].words|))
  {
    assert lines[..k][1..] == lines[1..][..k - 1];
  }

  lemma AlongHere(lines: seq<Line>, n: int, w: string)
    requires lines != [] && 0 <= n < |lines[0].words|
    ensures Along(lines, n, w) <==> w in lines[0].words[n..]
  {
    assert lines[..0] == [];
    assert HoldsNext(lines, 0, n);
    forall k | 0 < k < |lines| ensures !HoldsNext(lines, k, n) { NextLater(lines, k, n); }
  }

  lemma AlongLater(lines: seq<Line>, n: int, w: string)
    requires lines != [] && n >= |lines[0].words|
    ensures Along(lines, n, w) <==> Along(lines[1..], n - |lines[0].words|, w)
  {
    assert lines[..0] == [];
    if Along(lines, n, w) {
      var k :| HoldsNext(lines, k, n) && w in lines[k].words[n - |Flat(lines[..k])|..];
      NextLater(lines, k, n);
      assert HoldsNext(lines[1..], k - 1, n - |lines[0].words|);
    }
    if Along(lines[1..], n - |lines[0].words|, w) {
      var m := n - |lines[0].words|;
      var k :| HoldsNext(lines[1..], k, m) && w in lines[1..][k].words[m - |Flat(lines[1..][..k])|..];
      NextLater(lines, k + 1, n);
      assert HoldsNext(lines, k + 1, n);
    }
  }

  lemma {:induction false} TailExactly(lines: seq<Line>, n: int, w: string)
    requires n >= 0
    ensures w in LineTail(lines, n) <==> Along(lines, n, w)
  {
    if lines == [] {
    } else if n < |lines[0].words| {
      AlongHere(lines, n, w);
    } else {
      TailExactly(lines[1..], n - |lines[0].words|, w);
      AlongLater(lines, n, w);
    }
  }

  /** The word holds k, with nothing that is part of a word before or after it. */
  ghost predicate Holds(w: string, k: string) {
    exists a, b :: IsPart(w, a, b) && Text.Lower(w[a..b]) == k
  }

  predicate IsPart(w: string, a: int, b: int) {
    0 <= a <= b <= |w| && (a == 0 || !InWord(w[a - 1])) && (b == |w| || !InWord(w[b]))
  }

  lemma HoldsExactly(w: string, k: string)
    ensures HoldsWord(w, k) <==> Holds(w, k)
  {
    if HoldsWord(w, k) {
      var a :| 0 <= a <= |w| && (a == 0 || !IsWordChar(w[a - 1])) && Opens(w[a..], k);
      OpenedAt(w, k, a);
      assert IsPart(w, a, a + |k|);
    }
    if Holds(w, k) {
      var a, b :| IsPart(w, a, b) && Text.Lower(w[a..b]) == k;
      OpenedAt(w, k, a);
    }
  }

  predicate OpensAt(w: string, k: string, a: int)
    requires 0 <= a <= |w|
  {
    a + |k| <= |w| && Text.Lower(w[a..a + |k|]) == k && (a + |k| == |w| || !InWord(w[a + |k|]))
  }

  lemma OpenedAt(w: string, k: string, a: int)
    requires 0 <= a <= |w|
    ensures Opens(w[a..], k) <==> OpensAt(w, k, a)
  {
    if a + |k| <= |w| { assert w[a..][..|k|] == w[a..a + |k|]; }
  }

  ghost predicate SomeAlong(lines: seq<Line>, n: int, word: string) { exists w :: Along(lines, n, w) && Holds(w, word) }

  /** Some line begins with ws and holds the word further along. */
  ghost predicate SaysWithin(lines: seq<Line>, ws: seq<string>, word: string) {
    exists i :: Begins(lines, i, ws) && SomeAlong(lines[i..], |ws|, word)
  }

  lemma WordAlong(lines: seq<Line>, n: int, word: string)
    requires n >= 0
    ensures (exists w :: w in LineTail(lines, n) && HoldsWord(w, word)) <==> SomeAlong(lines, n, word)
  {
    forall w ensures w in LineTail(lines, n) && HoldsWord(w, word) <==> Along(lines, n, w) && Holds(w, word) {
      TailExactly(lines, n, w);
      HoldsExactly(w, word);
    }
  }

  lemma {:induction false} WithinExactly(lines: seq<Line>, ws: seq<string>, word: string)
    ensures HasWordAfter(lines, ws, word) <==> SaysWithin(lines, ws, word)
  {
    if lines == [] {
    } else {
      WithinExactly(lines[1..], ws, word);
      WordAlong(lines, |ws|, word);
      assert lines[0..] == lines;
      forall i | i > 0 ensures Begins(lines, i, ws) <==> Begins(lines[1..], i - 1, ws) { Shift(lines, i, ws); }
      if SaysWithin(lines, ws, word) {
        var i :| Begins(lines, i, ws) && SomeAlong(lines[i..], |ws|, word);
        if i > 0 {
          Shift(lines, i, ws);
          assert SaysWithin(lines[1..], ws, word);
        }
      }
      if SaysWithin(lines[1..], ws, word) {
        var i :| Begins(lines[1..], i, ws) && SomeAlong(lines[1..][i..], |ws|, word);
        Shift(lines, i + 1, ws);
        assert SaysWithin(lines, ws, word);
      }
    }
  }
}
