/** Printed text never reads as a quoted FortiOS name, whatever its community strings hold. */
module PrintedNames {
  import opened CliLexer
  import opened Common
  import opened MockExtractor
  import opened MockPrinter
  import opened MockRoundTrip
  import opened PrintedMatches
  import opened PrintedText
  import opened Spelling
  import Evidence
  import Text

  // ------------------------------------------------------------- words of any text

  lemma {:induction false} WordsSplit(a: string, blank: char, b: string)
    requires Text.IsSpace(blank)
    ensures Words(a + [blank] + b) == Words(a) + Words(b)
    decreases |a|
  {
    var s := a + [blank] + b;
    if a == "" {
      assert s[0] == blank && s[1..] == b;
    } else if Text.IsSpace(a[0]) {
      assert s[1..] == a[1..] + [blank] + b;
      WordsSplit(a[1..], blank, b);
    } else {
      var n := TokenLength(a);
      var rest := a[n..] + [blank] + b;
      assert s == a[..n] + rest && a == a[..n] + a[n..];
      WordThenRest(a[..n], rest);
      WordThenRest(a[..n], a[n..]);
      WordsSplit(a[n..], blank, b);
      Associates([a[..n]], Words(a[n..]), Words(b));
    }
  }

  /** Line by line or all at once, a text has the same words. */
  lemma {:induction false} FlatIsWords(s: string)
    ensures Flat(Lex(s)) == Words(s)
    decreases |s|
  {
    var n := NewlineAt(s);
    var first := Line(LeadOf(s[..n]), Words(s[..n]));
    if n == |s| {
      assert s[..n] == s && [first][1..] == [];
      assert Flat([first]) == first.words + [];
    } else {
      var rest := Lex(s[n + 1..]);
      assert s == s[..n] + [s[n]] + s[n + 1..];
      WordsSplit(s[..n], s[n], s[n + 1..]);
      FlatIsWords(s[n + 1..]);
      assert ([first] + rest)[1..] == rest;
    }
  }

  ghost predicate NoneQuoted(ws: seq<string>) { forall i :: 0 <= i < |ws| ==> !Quoted(ws[i]) }

  lemma {:induction false} WordsUnquoted(s: string)
    requires '"' !in s
    ensures NoneQuoted(Words(s))
    decreases |s|
  {
    if s == "" {
    } else if Text.IsSpace(s[0]) {
      WordsUnquoted(s[1..]);
    } else {
      WordsUnquoted(s[TokenLength(s)..]);
    }
  }

  // ------------------------------------------------------------- words of a command

  /** The value, if there is one, is a word or has no quotation mark in it. */
  predicate IsQuiet(c: Command) {
    c.value.Some? ==> TakesValue(c.phrase) && (IsToken(c.value.value) || '"' !in c.value.value)
  }

  function Written(c: Command): seq<string> {
    PhraseText(c.phrase) + if c.value.Some? then Words(c.value.value) else []
  }

  lemma {:induction false} JoinLast(ws: seq<string>, v: string)
    requires ws != []
    ensures JoinWords(ws + [v]) == JoinWords(ws) + " " + v
  {
    var all := ws + [v];
    if |ws| == 1 {
      assert all[1..] == [v];
    } else {
      assert all[1..] == ws[1..] + [v];
      JoinLast(ws[1..], v);
    }
  }

  lemma PhraseTokens(p: Phrase)
    ensures AllTokens(PhraseText(p)) && NoneQuoted(PhraseText(p))
  {
    var ks := Keywords(p);
    forall i | 0 <= i < |ks| ensures IsToken(PhraseText(p)[i]) && !Quoted(PhraseText(p)[i]) {
      SpellIsToken(ks[i]);
      SpellIsMarked(ks[i]);
    }
  }

  lemma RenderedWords(c: Command)
    ensures Words(Render(c)) == Written(c)
  {
    var phrase, text := PhraseText(c.phrase), JoinWords(WordsOf(c));
    PhraseTokens(c.phrase);
    WordsOfJoined(phrase);
    if c.value.Some? {
      JoinLast(phrase, c.value.value);
      WordsSplit(JoinWords(phrase), ' ', c.value.value);
    } else {
      assert phrase + [] == phrase;
    }
    BlankFirst(text);
    assert "" + text == text;
  }

  // ------------------------------------------------------------ words of the whole text

  function AllWritten(cs: seq<Command>): seq<string> {
    if cs == [] then [] else Written(cs[0]) + AllWritten(cs[1..])
  }

  lemma {:induction false} PrintedWords(cs: seq<Command>)
    ensures Words(Evidence.JoinLines(RenderAll(cs))) == AllWritten(cs)
  {
    if cs == [] {
      assert RenderAll(cs) == [];
    } else {
      RenderedWords(cs[0]);
      if |cs| == 1 {
        assert AllWritten(cs[1..]) == [];
      } else {
        assert RenderAll(cs)[1..] == RenderAll(cs[1..]);
        PrintedWords(cs[1..]);
        WordsSplit(Render(cs[0]), '\n', Evidence.JoinLines(RenderAll(cs[1..])));
      }
    }
  }

  /** A word in quotation marks has a word before it that is not name. */
  ghost predicate Unnamed(ws: seq<string>) {
    forall i :: 0 <= i < |ws| && Quoted(ws[i]) ==> i > 0 && !Is(ws[i - 1], NAME)
  }

  lemma {:induction false} UnnamedHasNone(ws: seq<string>)
    requires forall i :: 0 < i < |ws| && Quoted(ws[i]) ==> !Is(ws[i - 1], NAME)
    ensures !HasQuotedName(ws)
  {
    if ws == [] {
    } else {
      forall i | 0 < i < |ws[1..]| && Quoted(ws[1..][i]) ensures !Is(ws[1..][i - 1], NAME) {
        assert ws[1..][i] == ws[i + 1] && ws[1..][i - 1] == ws[i];
      }
      UnnamedHasNone(ws[1..]);
    }
  }

  lemma UnnamedConcat(a: seq<string>, b: seq<string>)
    requires Unnamed(a) && Unnamed(b)
    ensures Unnamed(a + b)
  {
    var ws := a + b;
    forall i | 0 <= i < |ws| && Quoted(ws[i]) ensures i > 0 && !Is(ws[i - 1], NAME) {
      if i < |a| { assert ws[i] == a[i]; } else { assert ws[i] == b[i - |a|]; }
    }
  }

  lemma NotName(k: Keyword)
    requires k in {Hostname, Version, Host, Community, Policy, Encrypt, Server}
    ensures !Is(Spell(k), NAME)
  {
    SpellIsToken(k);
    SpellIsMarked(k);
    assert NAME[0] as int == 110;
  }

  lemma CommandIsUnnamed(c: Command)
    requires IsQuiet(c)
    ensures Unnamed(Written(c))
  {
    var phrase := PhraseText(c.phrase);
    PhraseTokens(c.phrase);
    if c.value.Some? {
      var ks, v := Keywords(c.phrase), c.value.value;
      LastKeyword(c.phrase);
      NotName(ks[|ks| - 1]);
      if IsToken(v) { WordThenRest(v, ""); assert v + "" == v; } else { WordsUnquoted(v); }
      ValueIsUnnamed(phrase, Words(v));
    } else {
      assert phrase + [] == phrase;
    }
  }

  lemma ValueIsUnnamed(phrase: seq<string>, words: seq<string>)
    requires NoneQuoted(phrase) && phrase != [] && !Is(phrase[|phrase| - 1], NAME)
    requires |words| == 1 || NoneQuoted(words)
    ensures Unnamed(phrase + words)
  {
  }

  lemma {:induction false} WrittenIsUnnamed(cs: seq<Command>)
    requires forall i :: 0 <= i < |cs| ==> IsQuiet(cs[i])
    ensures Unnamed(AllWritten(cs))
  {
    if cs == [] {
    } else {
      CommandIsUnnamed(cs[0]);
      WrittenIsUnnamed(cs[1..]);
      UnnamedConcat(Written(cs[0]), AllWritten(cs[1..]));
    }
  }

  // ---------------------------------------------------------------------- main result

  ghost predicate AllQuiet(cs: seq<Command>) { forall i :: 0 <= i < |cs| ==> IsQuiet(cs[i]) }

  lemma {:induction false} ConcatQuiet(ss: seq<seq<Command>>)
    requires forall j :: 0 <= j < |ss| ==> AllQuiet(ss[j])
    ensures AllQuiet(Concat(ss))
  {
    if ss == [] {
    } else {
      ConcatQuiet(ss[1..]);
    }
  }

  lemma {:induction false} PoliciesQuiet(ike: seq<IkePolicy>)
    ensures AllQuiet(Policies(ike))
  {
    if ike == [] {
    } else {
      PoliciesQuiet(ike[1..]);
    }
  }

  predicate IsValue(s: string) { IsToken(s) || IsName(s) }

  lemma EachQuiet(vs: seq<string>, p: Phrase)
    requires TakesValue(p) && forall i :: 0 <= i < |vs| ==> IsValue(vs[i])
    ensures AllQuiet(Each(vs, p))
  {
  }

  lemma SingleQuiet(o: Option<string>, p: Phrase)
    requires TakesValue(p) && (o.Some? ==> IsValue(o.value))
    ensures AllQuiet(Single(o, p))
  {
  }

  lemma ToggleQuiet(o: Option<bool>, yes: Phrase, no: Phrase)
    ensures AllQuiet(Toggle(o, yes, no))
  {
  }

  lemma CommandsAreQuiet(c: Candidate)
    requires Producible(c)
    ensures AllQuiet(Commands(c))
  {
    SingleQuiet(c.hostname, HostnamePhrase);
    if c.sshVersion.Some? { VersionsAreTokens(c.sshVersion.value); }
    SingleQuiet(c.sshVersion, SshPhrase);
    ToggleQuiet(c.telnet, YesTelnet, NoTelnet);
    ToggleQuiet(c.passwordEncryption, YesPassword, NoPassword);
    ToggleQuiet(c.http, YesHttp, NoHttp);
    EachQuiet(c.syslogHosts, LogHost);
    EachQuiet(c.communities, SnmpCommunity);
    PoliciesQuiet(c.ike);
    EachQuiet(c.ntpServers, NtpServer);
    ConcatQuiet(Sections(c));
  }

  /** However a producible candidate is printed, no FortiOS name is read from the text. */
  lemma PrintedHasNoName(c: Candidate)
    requires Producible(c)
    ensures !HasQuotedName(Flat(Lex(Print(c))))
  {
    CommandsAreQuiet(c);
    WrittenIsUnnamed(Commands(c));
    UnnamedHasNone(AllWritten(Commands(c)));
    PrintedWords(Commands(c));
    FlatIsWords(Print(c));
  }
}
