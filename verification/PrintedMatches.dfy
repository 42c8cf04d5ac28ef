/** What the extractor's patterns find on printed lines: each phrase finds exactly the
  * commands printed with it. */
module PrintedMatches {
  import opened CliLexer
  import opened Common
  import opened MockExtractor
  import opened MockPrinter
  import opened PrintedText
  import opened Spelling
  import Text

  function ValueOf(c: Command, p: Phrase): seq<string> { if c.phrase == p && c.value.Some? then [c.value.value] else [] }

  /** The values printed after a phrase, in order. */
  function Values(cs: seq<Command>, p: Phrase): seq<string> {
    if cs == [] then [] else ValueOf(cs[0], p) + Values(cs[1..], p)
  }

  predicate Mentions(cs: seq<Command>, p: Phrase) { exists i :: 0 <= i < |cs| && cs[i].phrase == p }

  // ------------------------------------------------------------------- the first line

  lemma FirstWords(cs: seq<Command>)
    requires cs != []
    ensures LinesOf(cs)[0] == LineOf(cs[0]) && LinesOf(cs)[1..] == LinesOf(cs[1..])
    ensures WordsOf(cs[0]) <= Flat(LinesOf(cs))
    ensures |Keywords(cs[0].phrase)| <= |WordsOf(cs[0])|
    ensures forall i :: 0 <= i < |Keywords(cs[0].phrase)| ==> Flat(LinesOf(cs))[i] == Spell(Keywords(cs[0].phrase)[i])
  {
    var lines := LinesOf(cs);
    assert Flat(lines) == lines[0].words + Flat(lines[1..]);
  }

  /** No phrase but the printed one matches. */
  lemma OtherPhrase(cs: seq<Command>, q: Phrase)
    requires cs != []
    ensures StartsWith(Flat(LinesOf(cs)), PhraseText(q)) ==> cs[0].phrase == q
  {
    var p := cs[0].phrase;
    FirstWords(cs);
    if p != q {
      var i := PrefixFree(p, q);
      SpellDiffers(Keywords(p)[i], Keywords(q)[i]);
      assert Is(Flat(LinesOf(cs))[i], PhraseText(q)[i]) == false;
    }
  }

  lemma SamePhrase(cs: seq<Command>)
    requires cs != []
    ensures StartsWith(Flat(LinesOf(cs)), PhraseText(cs[0].phrase))
  {
    FirstWords(cs);
    var ks := Keywords(cs[0].phrase);
    forall i | 0 <= i < |ks| ensures Is(Flat(LinesOf(cs))[i], PhraseText(cs[0].phrase)[i]) { SpellIsToken(ks[i]); }
  }

  lemma CaptureFirst(cs: seq<Command>, q: Phrase)
    requires cs != [] && AllProper(cs) && TakesValue(q)
    ensures CaptureAt(LinesOf(cs), PhraseText(q)) == if cs[0].phrase == q then cs[0].value else None
    ensures cs[0].phrase == q ==> cs[0].value.Some? && |WordsOf(cs[0])| == |PhraseText(q)| + 1
  {
    FirstWords(cs);
    if cs[0].phrase == q {
      SamePhrase(cs);
      assert IsProper(cs[0]);
      assert WordsOf(cs[0]) == PhraseText(q) + [cs[0].value.value];
      assert Flat(LinesOf(cs))[|PhraseText(q)|] == WordsOf(cs[0])[|PhraseText(q)|];
    } else {
      OtherPhrase(cs, q);
    }
  }

  // ------------------------------------------------------------------- all the lines

  lemma TailProper(cs: seq<Command>)
    requires cs != [] && AllProper(cs)
    ensures AllProper(cs[1..])
  {
  }

  /** The pattern reads, at each line, the value of a command of this phrase. */
  ghost predicate Reads(cs: seq<Command>, q: Phrase, pattern: seq<string>) {
    cs != [] ==>
      && CaptureAt(LinesOf(cs), pattern) == (if cs[0].phrase == q then cs[0].value else None)
      && (cs[0].phrase == q ==> cs[0].value.Some? && |WordsOf(cs[0])| == |pattern| + 1)
      && Reads(cs[1..], q, pattern)
  }

  lemma {:induction false} PhraseReads(cs: seq<Command>, q: Phrase)
    requires AllProper(cs) && TakesValue(q)
    ensures Reads(cs, q, PhraseText(q))
  {
    if cs == [] {
    } else {
      CaptureFirst(cs, q);
      TailProper(cs);
      PhraseReads(cs[1..], q);
    }
  }

  lemma {:induction false} FindAllIsValues(cs: seq<Command>, q: Phrase, pattern: seq<string>)
    requires Reads(cs, q, pattern)
    ensures FindAll(LinesOf(cs), pattern) == Values(cs, q)
  {
    if cs == [] {
    } else {
      FindAllIsValues(cs[1..], q, pattern);
      assert LinesOf(cs)[1..] == LinesOf(cs[1..]);
      assert Rest(LinesOf(cs)[1..], 0) == LinesOf(cs)[1..];
    }
  }

  function FirstOf(vs: seq<string>): Option<string> { if vs == [] then None else Some(vs[0]) }

  lemma {:induction false} FindFirstIsValue(cs: seq<Command>, q: Phrase, pattern: seq<string>)
    requires Reads(cs, q, pattern)
    ensures FindFirst(LinesOf(cs), pattern) == FirstOf(Values(cs, q))
  {
    if cs == [] {
    } else {
      FindFirstIsValue(cs[1..], q, pattern);
      assert LinesOf(cs)[1..] == LinesOf(cs[1..]);
    }
  }

  /** Where every printed value is one of the choices, the anchored search finds the first. */
  lemma {:induction false} FindLastIsValue(cs: seq<Command>, q: Phrase, pattern: seq<string>, choices: set<string>)
    requires Reads(cs, q, pattern)
    requires forall v :: v in Values(cs, q) ==> v in choices
    ensures FindLast(LinesOf(cs), pattern, choices) == FirstOf(Values(cs, q))
  {
    if cs == [] {
    } else {
      assert forall v :: v in Values(cs[1..], q) ==> v in Values(cs, q);
      FindLastIsValue(cs[1..], q, pattern, choices);
      assert LinesOf(cs)[1..] == LinesOf(cs[1..]);
      if cs[0].phrase == q { assert cs[0].value.value in Values(cs, q); }
    }
  }

  /** The pattern of a phrase that is never printed finds nothing. */
  lemma {:induction false} UnprintedIsNotFound(cs: seq<Command>, q: Phrase)
    requires !Mentions(cs, q)
    ensures FindFirst(LinesOf(cs), PhraseText(q)) == None
    ensures forall w :: !HasWordAfter(LinesOf(cs), PhraseText(q), w)
  {
    if cs == [] {
    } else {
      OtherPhrase(cs, q);
      FirstWords(cs);
      UnprintedIsNotFound(cs[1..], q);
    }
  }

  /** The phrases that end at a word boundary. */
  predicate EndsAtBoundary(p: Phrase) {
    !TakesValue(p) && p != SetHostName && p != SetDeviceHostname && p != SetAllowAccess
  }

  lemma PhraseFirst(cs: seq<Command>, q: Phrase)
    requires cs != [] && EndsAtBoundary(q)
    ensures PhraseAt(LinesOf(cs), PhraseText(q)) <==> cs[0].phrase == q
  {
    FirstWords(cs);
    if cs[0].phrase == q {
      assert |WordsOf(cs[0])| > 0;
      SpelledPhrase(LinesOf(cs), Keywords(q));
    } else {
      OtherBoundary(cs, q);
    }
  }

  lemma SpelledPhrase(lines: seq<Line>, ks: seq<Keyword>)
    requires lines != [] && lines[0].words != [] && 0 < |ks| <= |Flat(lines)|
    requires forall j :: 0 <= j < |ks| ==> Flat(lines)[j] == Spell(ks[j])
    ensures PhraseAt(lines, Spelled(ks))
  {
    var ws := Spelled(ks);
    forall j | 0 <= j < |ks| ensures Text.Lower(ws[j]) == ws[j] { SpellIsToken(ks[j]); }
    LowerPhrase(lines, ws);
  }

  /** Lower-case keywords in place make the phrase match. */
  lemma LowerPhrase(lines: seq<Line>, ws: seq<string>)
    requires lines != [] && lines[0].words != [] && 0 < |ws| <= |Flat(lines)|
    requires forall j :: 0 <= j < |ws| ==> Flat(lines)[j] == ws[j] && Text.Lower(ws[j]) == ws[j]
    ensures PhraseAt(lines, ws)
  {
    var last := ws[|ws| - 1];
    assert last[..|last|] == last;
  }

  lemma OtherBoundary(cs: seq<Command>, q: Phrase)
    requires cs != [] && EndsAtBoundary(q)
    ensures PhraseAt(LinesOf(cs), PhraseText(q)) ==> cs[0].phrase == q
  {
    var p := cs[0].phrase;
    FirstWords(cs);
    if p != q {
      var i := PrefixFree(p, q);
      Clash(p, q, i);
      ClashStopsPhrase(LinesOf(cs), Keywords(p), Keywords(q), i);
    }
  }

  /** The keyword that is printed is not the one the phrase has there. */
  ghost predicate Clashes(printed: seq<Keyword>, phrase: seq<Keyword>, i: nat) {
    && i < |printed| && i < |phrase|
    && (if i < |phrase| - 1 then !Is(Spell(printed[i]), Spell(phrase[i])) else !Opens(Spell(printed[i]), Spell(phrase[i])))
  }

  lemma ClashStopsPhrase(lines: seq<Line>, printed: seq<Keyword>, phrase: seq<Keyword>, i: nat)
    requires Clashes(printed, phrase, i) && |printed| <= |Flat(lines)|
    requires forall j :: 0 <= j < |printed| ==> Flat(lines)[j] == Spell(printed[j])
    ensures PhraseAt(lines, Spelled(phrase)) == false
  {
    var n := |phrase| - 1;
    if i < n { assert Spelled(phrase)[..n][i] == Spell(phrase[i]); }
  }

  lemma Clash(p: Phrase, q: Phrase, i: nat)
    requires EndsAtBoundary(q) && i < |Keywords(p)| && i < |Keywords(q)| && Keywords(p)[i] != Keywords(q)[i]
    requires forall j :: 0 <= j < i ==> Keywords(p)[j] == Keywords(q)[j]
    ensures Clashes(Keywords(p), Keywords(q), i)
  {
    var j, k := Keywords(p)[i], Keywords(q)[i];
    if i < |Keywords(q)| - 1 {
      SpellDiffers(j, k);
    } else {
      NoKeywordContinues(p, q, i);
      OpensNot(j, k);
    }
  }

  /** Where another phrase agrees with this one up to its last keyword, the marks there show
    * that neither begins the other. */
  lemma NoKeywordContinues(p: Phrase, q: Phrase, i: nat)
    requires EndsAtBoundary(q) && i == |Keywords(q)| - 1 && i < |Keywords(p)| && Keywords(p)[i] != Keywords(q)[i]
    requires forall j :: 0 <= j < i ==> Keywords(p)[j] == Keywords(q)[j]
    ensures Apart(Keywords(p)[i], Keywords(q)[i])
  {
    var ks, qs := Keywords(p), Keywords(q);
    BoundaryIsLong(q);
    assert ks[0] == qs[0];
    if i == 1 {
      SharedHead(p, q);
    } else {
      assert ks[1] == qs[1];
      SharedHeads(p, q);
    }
  }

  ghost predicate Apart(j: Keyword, k: Keyword) {
    MarkOf(j).length < MarkOf(k).length || MarkOf(j).first != MarkOf(k).first
  }

  lemma BoundaryIsLong(q: Phrase)
    requires EndsAtBoundary(q)
    ensures |Keywords(q)| >= 2
  {
  }

  /** Only ntp server and ntp authenticate. */
  lemma SharedHead(p: Phrase, q: Phrase)
    requires EndsAtBoundary(q) && |Keywords(q)| == 2 && |Keywords(p)| >= 2 && Keywords(p)[0] == Keywords(q)[0] && p != q
    ensures Apart(Keywords(p)[1], Keywords(q)[1])
  {
  }

  /** Only the two set admin-telnet phrases. */
  lemma SharedHeads(p: Phrase, q: Phrase)
    requires EndsAtBoundary(q) && |Keywords(q)| > 2 && |Keywords(p)| >= |Keywords(q)| && p != q
    requires Keywords(p)[0] == Keywords(q)[0] && Keywords(p)[1] == Keywords(q)[1]
    ensures Apart(Keywords(p)[|Keywords(q)| - 1], Keywords(q)[|Keywords(q)| - 1])
  {
  }

  lemma OpensNot(j: Keyword, k: Keyword)
    requires Apart(j, k)
    ensures Opens(Spell(j), Spell(k)) == false
  {
    SpellIsMarked(j);
    SpellIsMarked(k);
    SpellIsToken(j);
    if |Spell(k)| <= |Spell(j)| {
      assert Text.Lower(Spell(j)[..|Spell(k)|])[0] == Text.Lower(Spell(j))[0];
    }
  }

  /** A phrase that ends at a word boundary is found exactly if a command was printed with it. */
  lemma {:induction false} HasIsMention(cs: seq<Command>, q: Phrase)
    requires EndsAtBoundary(q)
    ensures Has(LinesOf(cs), q) <==> Mentions(cs, q)
  {
    if cs == [] {
    } else {
      PhraseFirst(cs, q);
      assert LinesOf(cs)[1..] == LinesOf(cs[1..]);
      HasIsMention(cs[1..], q);
      MentionsTail(cs, q);
    }
  }

  lemma MentionsTail(cs: seq<Command>, q: Phrase)
    requires cs != []
    ensures Mentions(cs, q) <==> cs[0].phrase == q || Mentions(cs[1..], q)
  {
    if Mentions(cs[1..], q) {
      var i :| 0 <= i < |cs[1..]| && cs[1..][i].phrase == q;
      assert cs[i + 1].phrase == q;
    }
    if Mentions(cs, q) && cs[0].phrase != q {
      var i :| 0 <= i < |cs| && cs[i].phrase == q;
      assert cs[1..][i - 1].phrase == q;
    }
  }

  // --------------------------------------------------------------- no FortiOS block

  /** No word that ends in config stands before this one. */
  ghost predicate Calm(ws: seq<string>, second: string) {
    forall i :: 0 <= i < |ws| - 1 && EndsInConfig(ws[i]) ==> !Is(ws[i + 1], second)
  }

  lemma {:induction false} CalmHasNoBlock(ws: seq<string>, second: string, third: string, fourth: string)
    requires Calm(ws, second)
    ensures HasBlock(ws, second, third, fourth) == false
  {
    if ws == [] {
    } else {
      CalmTail(ws, second);
      CalmHasNoBlock(ws[1..], second, third, fourth);
    }
  }

  lemma CalmTail(ws: seq<string>, second: string)
    requires ws != [] && Calm(ws, second)
    ensures Calm(ws[1..], second)
  {
    forall i | 0 <= i < |ws[1..]| - 1 && EndsInConfig(ws[1..][i]) ensures !Is(ws[1..][i + 1], second) {
      assert ws[1..][i] == ws[i + 1] && ws[1..][i + 1] == ws[i + 2];
    }
  }

  lemma CalmConcat(a: seq<string>, b: seq<string>, second: string)
    requires Calm(a, second) && Calm(b, second) && (b != [] ==> !Is(b[0], second))
    ensures Calm(a + b, second)
  {
    var ws := a + b;
    forall i | 0 <= i < |ws| - 1 && EndsInConfig(ws[i]) ensures !Is(ws[i + 1], second) {
      if i + 1 < |a| {
        assert ws[i] == a[i] && ws[i + 1] == a[i + 1];
      } else if i + 1 == |a| {
        assert ws[i + 1] == b[0];
      } else {
        assert ws[i] == b[i - |a|] && ws[i + 1] == b[i - |a| + 1];
      }
    }
  }

  predicate IsPrinted(p: Phrase) {
    !p.SetHostName? && !p.SetDeviceHostname? && !p.SetTelnetDisable? && !p.SetTelnetEnable? && !p.SetAllowAccess?
  }

  ghost predicate AllPrinted(cs: seq<Command>) { forall i :: 0 <= i < |cs| ==> IsPrinted(cs[i].phrase) }

  ghost predicate IsSecond(w: string) { w == SYSTEM || w == VPN }

  lemma NoSecondWord(k: Keyword, second: string)
    requires k != System && IsSecond(second)
    ensures Is(Spell(k), second) == false
  {
    SpellIsToken(k);
    SpellIsMarked(k);
    var m := Mark(|second|, second[0] as int, second[1] as int);
    assert m == Mark(6, 115, 121) || m == Mark(3, 118, 112);
    assert MarkOf(k) != Mark(6, 115, 121) && MarkOf(k) != Mark(3, 118, 112);
  }

  lemma PrintedKeywords(p: Phrase, i: nat)
    requires IsPrinted(p) && i < |Keywords(p)|
    ensures Keywords(p)[i] != System
  {
  }

  lemma LastKeyword(p: Phrase)
    requires TakesValue(p)
    ensures Keywords(p)[|Keywords(p)| - 1] in {Hostname, Version, Host, Community, Policy, Encrypt, Server}
  {
  }

  lemma NotConfig(k: Keyword)
    requires k in {Hostname, Version, Host, Community, Policy, Encrypt, Server}
    ensures EndsInConfig(Spell(k)) == false
  {
    SpellIsToken(k);
    var w := Spell(k);
    assert w[|w| - 1] != 'g';
    if |w| >= |CONFIG| {
      assert Text.Lower(w[|w| - |CONFIG|..])[|CONFIG| - 1] == w[|w| - 1];
      assert CONFIG[|CONFIG| - 1] == 'g';
    }
  }

  lemma CalmWords(ws: seq<string>, n: nat, second: string)
    requires 0 < n <= |ws| <= n + 1
    requires forall i :: 0 <= i < n ==> !Is(ws[i], second)
    requires |ws| > n ==> !EndsInConfig(ws[n - 1])
    ensures Calm(ws, second)
  {
  }

  lemma CalmCommand(c: Command, second: string)
    requires IsProper(c) && IsPrinted(c.phrase) && IsSecond(second)
    ensures Calm(WordsOf(c), second) && WordsOf(c) != [] && !Is(WordsOf(c)[0], second)
  {
    var ks := Keywords(c.phrase);
    forall i | 0 <= i < |ks| ensures !Is(WordsOf(c)[i], second) {
      PrintedKeywords(c.phrase, i);
      NoSecondWord(ks[i], second);
      assert PhraseText(c.phrase)[i] == Spell(ks[i]);
    }
    if c.value.Some? {
      LastKeyword(c.phrase);
      NotConfig(ks[|ks| - 1]);
      assert PhraseText(c.phrase)[|ks| - 1] == Spell(ks[|ks| - 1]);
    }
    CalmWords(WordsOf(c), |ks|, second);
  }

  lemma {:induction false} PrintedIsCalm(cs: seq<Command>, second: string)
    requires AllProper(cs) && AllPrinted(cs) && IsSecond(second)
    ensures Calm(Flat(LinesOf(cs)), second)
    ensures cs != [] ==> Flat(LinesOf(cs)) != [] && !Is(Flat(LinesOf(cs))[0], second)
  {
    if cs == [] {
    } else {
      CalmCommand(cs[0], second);
      TailProper(cs);
      assert AllPrinted(cs[1..]);
      PrintedIsCalm(cs[1..], second);
      assert Flat(LinesOf(cs)) == WordsOf(cs[0]) + Flat(LinesOf(cs[1..]));
      assert cs[1..] == [] ==> Flat(LinesOf(cs[1..])) == [];
      CalmConcat(WordsOf(cs[0]), Flat(LinesOf(cs[1..])), second);
    }
  }
}
