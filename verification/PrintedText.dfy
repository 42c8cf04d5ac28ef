/** Reading printed commands back: the text of a list of commands lexes to their words. */
module PrintedText {
  import opened CliLexer
  import opened MockExtractor
  import opened MockPrinter
  import opened Spelling
  import Evidence
  import Text

  predicate TakesValue(p: Phrase) {
    p in {HostnamePhrase, SshPhrase, LogHost, SnmpCommunity, IsakmpPolicy, EncryptionPhrase, NtpServer}
  }

  /** The command has a value just when its phrase takes one, and the value is one word. */
  predicate IsProper(c: Command) {
    (TakesValue(c.phrase) <==> c.value.Some?) && (c.value.Some? ==> IsToken(c.value.value))
  }

  ghost predicate AllProper(cs: seq<Command>) { forall i :: 0 <= i < |cs| ==> IsProper(cs[i]) }

  function LineOf(c: Command): Line { Line(LeadFor(c.phrase), WordsOf(c)) }

  function LinesOf(cs: seq<Command>): (lines: seq<Line>)
    ensures |lines| == |cs|
  {
    if cs == [] then [] else [LineOf(cs[0])] + LinesOf(cs[1..])
  }

  ghost predicate AllTokens(ws: seq<string>) { forall i :: 0 <= i < |ws| ==> IsToken(ws[i]) }

  lemma WordsAreTokens(c: Command)
    requires IsProper(c)
    ensures AllTokens(WordsOf(c))
  {
    var ks := Keywords(c.phrase);
    forall i | 0 <= i < |ks| ensures IsToken(PhraseText(c.phrase)[i]) { SpellIsToken(ks[i]); }
  }

  // ---------------------------------------------------------------------- one line

  lemma {:induction false} TokenLengthIs(w: string, rest: string)
    requires IsToken(w) && (rest == "" || Text.IsSpace(rest[0]))
    ensures TokenLength(w + rest) == |w|
  {
    assert (w + rest)[1..] == w[1..] + rest;
    if |w| == 1 {
      assert w[1..] + rest == rest;
    } else {
      TokenLengthIs(w[1..], rest);
    }
  }

  lemma WordThenRest(w: string, rest: string)
    requires IsToken(w) && (rest == "" || Text.IsSpace(rest[0]))
    ensures Words(w + rest) == [w] + Words(rest)
  {
    TokenLengthIs(w, rest);
    assert (w + rest)[..|w|] == w && (w + rest)[|w|..] == rest;
  }

  lemma BlankFirst(rest: string)
    ensures Words(" " + rest) == Words(rest)
  {
    assert (" " + rest)[0] == ' ' && (" " + rest)[1..] == rest;
  }

  lemma {:induction false} WordsOfJoined(ws: seq<string>)
    requires AllTokens(ws) && ws != []
    ensures Words(JoinWords(ws)) == ws
  {
    if |ws| == 1 {
      WordThenRest(ws[0], "");
      assert ws[0] + "" == ws[0];
      assert ws == [ws[0]];
    } else {
      TailTokens(ws);
      WordsOfJoined(ws[1..]);
      OneMoreWord(ws[0], JoinWords(ws[1..]));
      JoinFirst(ws);
      assert ws == [ws[0]] + ws[1..];
    }
  }

  lemma OneMoreWord(w: string, rest: string)
    requires IsToken(w)
    ensures Words(w + (" " + rest)) == [w] + Words(rest)
  {
    BlankFirst(rest);
    WordThenRest(w, " " + rest);
  }

  lemma TailTokens(ws: seq<string>)
    requires AllTokens(ws) && ws != []
    ensures AllTokens(ws[1..])
  {
  }

  lemma JoinFirst(ws: seq<string>)
    requires |ws| > 1
    ensures JoinWords(ws) == ws[0] + (" " + JoinWords(ws[1..]))
  {
  }

  lemma JoinedStartsAtOnce(ws: seq<string>)
    requires AllTokens(ws) && ws != []
    ensures JoinWords(ws) != "" && !Text.IsSpace(JoinWords(ws)[0])
  {
  }

  predicate OnOneLine(s: string) { forall i :: 0 <= i < |s| ==> s[i] != '\n' }

  lemma {:induction false} JoinedIsOneLine(ws: seq<string>)
    requires AllTokens(ws)
    ensures OnOneLine(JoinWords(ws))
  {
    if |ws| > 1 {
      JoinedIsOneLine(ws[1..]);
    }
  }

  lemma RenderedLine(c: Command)
    requires IsProper(c)
    ensures OnOneLine(Render(c))
    ensures Line(LeadOf(Render(c)), Words(Render(c))) == LineOf(c)
  {
    var ws := WordsOf(c);
    WordsAreTokens(c);
    WordsOfJoined(ws);
    JoinedStartsAtOnce(ws);
    JoinedIsOneLine(ws);
    if LeadFor(c.phrase) == Indented {
      assert Render(c) == " " + JoinWords(ws);
      BlankFirst(JoinWords(ws));
    } else {
      assert Render(c) == JoinWords(ws);
    }
  }

  // --------------------------------------------------------------------- all lines

  lemma {:induction false} NewlineAfter(s: string, rest: string)
    requires OnOneLine(s) && (rest == "" || rest[0] == '\n')
    ensures NewlineAt(s + rest) == |s|
  {
    if s == "" {
      assert s + rest == rest;
    } else {
      assert (s + rest)[1..] == s[1..] + rest;
      NewlineAfter(s[1..], rest);
    }
  }

  lemma LexFirst(s: string, rest: string)
    requires OnOneLine(s)
    ensures Lex(s + "\n" + rest) == [Line(LeadOf(s), Words(s))] + Lex(rest)
    ensures Lex(s) == [Line(LeadOf(s), Words(s))]
  {
    var t := s + "\n" + rest;
    NewlineAfter(s, "\n" + rest);
    assert t == s + ("\n" + rest);
    assert t[..|s|] == s && t[|s| + 1..] == rest;
    NewlineAfter(s, "");
    assert s + "" == s && s[..|s|] == s;
  }

  /** The printed text of commands reads as their lines. */
  lemma {:induction false} LexPrinted(cs: seq<Command>)
    requires AllProper(cs) && cs != []
    ensures Lex(Evidence.JoinLines(RenderAll(cs))) == LinesOf(cs)
  {
    RenderedLine(cs[0]);
    if |cs| == 1 {
      assert LinesOf(cs) == [LineOf(cs[0])];
      LexFirst(Render(cs[0]), "");
    } else {
      var rest := Evidence.JoinLines(RenderAll(cs[1..]));
      assert RenderAll(cs)[1..] == RenderAll(cs[1..]);
      assert Evidence.JoinLines(RenderAll(cs)) == Render(cs[0]) + "\n" + rest;
      LexPrinted(cs[1..]);
      LexFirst(Render(cs[0]), rest);
    }
  }

  lemma LexNothing()
    ensures Lex(Evidence.JoinLines(RenderAll([]))) == [Line(Flush, [])]
  {
    assert RenderAll([]) == [];
    assert Evidence.JoinLines([]) == "";
  }
}
