/** The reverse translation: command lines printed from a candidate alone. */
module MockPrinter {
  import opened CliLexer
  import opened Common
  import opened MockExtractor
  import Evidence

  /** A printed line: a phrase, indented or not, and the value after it. */
  datatype Command = Command(phrase: Phrase, value: Option<string>)

  /** The encryption line of a policy is the only indented one. */
  function LeadFor(p: Phrase): Lead { if p == EncryptionPhrase then Indented else Flush }

  function JoinWords(ws: seq<string>): string {
    if ws == [] then "" else if |ws| == 1 then ws[0] else ws[0] + " " + JoinWords(ws[1..])
  }

  function WordsOf(c: Command): seq<string> {
    PhraseText(c.phrase) + if c.value.Some? then [c.value.value] else []
  }

  function Render(c: Command): string {
    (if LeadFor(c.phrase) == Indented then " " else "") + JoinWords(WordsOf(c))
  }

  function Decimal(n: nat): (w: string)
    ensures IsDigits(w)
  {
    var last := ['0' + (n % 10) as char];
    if n < 10 then last else Decimal(n / 10) + last
  }

  function EncryptionText(e: Encryption): string { if e == Des then "des" else "3des" }

  // ------------------------------------------------------------------- the commands

  function Chosen(o: Option<bool>, yes: Phrase, no: Phrase): Phrase { if o.Some? && o.value then yes else no }

  function Toggle(o: Option<bool>, yes: Phrase, no: Phrase): seq<Command> { When(o.Some?, Chosen(o, yes, no)) }

  function When(b: bool, p: Phrase): seq<Command> { if b then [Command(p, None)] else [] }

  function Single(o: Option<string>, p: Phrase): seq<Command> {
    if o.None? || o.value == "" then [] else [Command(p, o)]
  }

  function Each(vs: seq<string>, p: Phrase): seq<Command> {
    seq(|vs|, i requires 0 <= i < |vs| => Command(p, Some(vs[i])))
  }

  /** A policy without an id is not printed. */
  function PolicyCommands(p: IkePolicy): seq<Command> {
    if p.id.None? then []
    else [Command(IsakmpPolicy, Some(Decimal(p.id.value))), Command(EncryptionPhrase, Some(EncryptionText(p.encryption)))]
  }

  function Policies(ike: seq<IkePolicy>): seq<Command> {
    if ike == [] then [] else PolicyCommands(ike[0]) + Policies(ike[1..])
  }

  /** The sections in the order they are printed. */
  function Sections(c: Candidate): seq<seq<Command>> {
    [Single(c.hostname, HostnamePhrase),
     Single(c.sshVersion, SshPhrase),
     Toggle(c.telnet, YesTelnet, NoTelnet),
     Toggle(c.passwordEncryption, YesPassword, NoPassword),
     Toggle(c.http, YesHttp, NoHttp),
     Each(c.syslogHosts, LogHost),
     Each(c.communities, SnmpCommunity),
     Policies(c.ike),
     Each(c.ntpServers, NtpServer),
     When(c.ntpAuthentication, NtpAuthenticate),
     When(c.banner, BannerLogin)]
  }

  function Concat(ss: seq<seq<Command>>): seq<Command> { if ss == [] then [] else ss[0] + Concat(ss[1..]) }

  function Commands(c: Candidate): seq<Command> { Concat(Sections(c)) }

  function RenderAll(cs: seq<Command>): seq<string> { seq(|cs|, i requires 0 <= i < |cs| => Render(cs[i])) }

  function Print(c: Candidate): string { Evidence.JoinLines(RenderAll(Commands(c))) }

  /** Append the lines section by section and join them. */
  method MockReverseTranslate(c: Candidate) returns (text: string)
    ensures text == Print(c)
  {
    var lines := SectionLines(Sections(c));
    text := Evidence.JoinLines(lines);
  }

  method SectionLines(sections: seq<seq<Command>>) returns (lines: seq<string>)
    ensures lines == RenderAll(Concat(sections))
  {
    lines := [];
    assert sections[..0] == [];
    for i := 0 to |sections|
      invariant lines == RenderAll(Concat(sections[..i]))
    {
      lines := AppendLines(lines, sections[i], Concat(sections[..i]));
      ConcatOneMore(sections[..i], sections[i]);
      assert sections[..i + 1] == sections[..i] + [sections[i]];
    }
    assert sections[..|sections|] == sections;
  }

  lemma {:induction false} ConcatOneMore(ss: seq<seq<Command>>, s: seq<Command>)
    ensures Concat(ss + [s]) == Concat(ss) + s
  {
    if ss == [] {
      assert [s][1..] == [];
    } else {
      assert (ss + [s])[1..] == ss[1..] + [s];
      ConcatOneMore(ss[1..], s);
    }
  }

  method AppendLines(before: seq<string>, section: seq<Command>, ghost done: seq<Command>) returns (lines: seq<string>)
    requires before == RenderAll(done)
    ensures lines == RenderAll(done + section)
  {
    lines := before;
    assert done + section[..0] == done;
    for i := 0 to |section|
      invariant lines == RenderAll(done + section[..i])
    {
      RenderOneMore(done + section[..i], section[i]);
      assert done + section[..i + 1] == done + section[..i] + [section[i]];
      lines := lines + [Render(section[i])];
    }
    assert section[..|section|] == section;
  }

  lemma RenderOneMore(cs: seq<Command>, c: Command)
    ensures RenderAll(cs + [c]) == RenderAll(cs) + [Render(c)]
  {
  }
}
