/** The text the mock prints, line by line as it is spelled. */
module PrinterMeaning {
  import opened Common
  import opened MockExtractor
  import opened MockPrinter
  import opened ExtractorMeaning
  import Evidence

  // ----------------------------------------------------------------------- one line each

  /** Words with a blank between them. */
  lemma Spaced(a: string, more: seq<string>)
    requires more != []
    ensures JoinWords([a] + more) == a + " " + JoinWords(more)
  {
    assert ([a] + more)[1..] == more;
  }

  lemma RenderedTwo(c: Command, a: string, b: string)
    requires WordsOf(c) == [a, b] && c.phrase != EncryptionPhrase
    ensures Render(c) == a + " " + b
  {
    assert [a, b] == [a] + [b];
    Spaced(a, [b]);
  }

  lemma RenderedThree(c: Command, a: string, b: string, d: string)
    requires WordsOf(c) == [a, b, d] && c.phrase != EncryptionPhrase
    ensures Render(c) == a + " " + (b + " " + d)
  {
    assert [a, b, d] == [a] + [b, d] && [b, d] == [b] + [d];
    Spaced(a, [b, d]);
    Spaced(b, [d]);
  }

  lemma RenderedFour(c: Command, a: string, b: string, d: string, e: string)
    requires WordsOf(c) == [a, b, d, e] && c.phrase != EncryptionPhrase
    ensures Render(c) == a + " " + (b + " " + (d + " " + e))
  {
    assert [a, b, d, e] == [a] + [b, d, e] && [b, d, e] == [b] + [d, e] && [d, e] == [d] + [e];
    Spaced(a, [b, d, e]);
    Spaced(b, [d, e]);
    Spaced(d, [e]);
  }

  lemma HostnamePhrasePrints(v: string)
    ensures Render(Command(HostnamePhrase, Some(v))) == "hostname" + " " + v
  {
    HostnamePhraseReads();
    RenderedTwo(Command(HostnamePhrase, Some(v)), "hostname", v);
  }

  lemma SshPhrasePrints(v: string)
    ensures Render(Command(SshPhrase, Some(v))) == "ip" + " " + ("ssh" + " " + ("version" + " " + v))
  {
    SshPhraseReads();
    RenderedFour(Command(SshPhrase, Some(v)), "ip", "ssh", "version", v);
  }

  lemma NoTelnetPrints()
    ensures Render(Command(NoTelnet, None)) == "no" + " " + ("transport" + " " + ("input" + " " + "telnet"))
  {
    NoTelnetReads();
    RenderedFour(Command(NoTelnet, None), "no", "transport", "input", "telnet");
  }

  lemma YesTelnetPrints()
    ensures Render(Command(YesTelnet, None)) == "transport" + " " + ("input" + " " + "telnet")
  {
    YesTelnetReads();
    RenderedThree(Command(YesTelnet, None), "transport", "input", "telnet");
  }

  lemma YesPasswordPrints()
    ensures Render(Command(YesPassword, None)) == "service" + " " + "password-encryption"
  {
    YesPasswordReads();
    RenderedTwo(Command(YesPassword, None), "service", "password-encryption");
  }

  lemma NoPasswordPrints()
    ensures Render(Command(NoPassword, None)) == "no" + " " + ("service" + " " + "password-encryption")
  {
    NoPasswordReads();
    RenderedThree(Command(NoPassword, None), "no", "service", "password-encryption");
  }

  lemma NoHttpPrints()
    ensures Render(Command(NoHttp, None)) == "no" + " " + ("ip" + " " + ("http" + " " + "server"))
  {
    NoHttpReads();
    RenderedFour(Command(NoHttp, None), "no", "ip", "http", "server");
  }

  lemma YesHttpPrints()
    ensures Render(Command(YesHttp, None)) == "ip" + " " + ("http" + " " + "server")
  {
    YesHttpReads();
    RenderedThree(Command(YesHttp, None), "ip", "http", "server");
  }

  lemma LogHostPrints(v: string)
    ensures Render(Command(LogHost, Some(v))) == "logging" + " " + ("host" + " " + v)
  {
    LogHostReads();
    RenderedThree(Command(LogHost, Some(v)), "logging", "host", v);
  }

  lemma SnmpCommunityPrints(v: string)
    ensures Render(Command(SnmpCommunity, Some(v))) == "snmp-server" + " " + ("community" + " " + v)
  {
    SnmpCommunityReads();
    RenderedThree(Command(SnmpCommunity, Some(v)), "snmp-server", "community", v);
  }

  lemma IsakmpPolicyPrints(v: string)
    ensures Render(Command(IsakmpPolicy, Some(v))) == "crypto" + " " + ("isakmp" + " " + ("policy" + " " + v))
  {
    IsakmpPolicyReads();
    RenderedFour(Command(IsakmpPolicy, Some(v)), "crypto", "isakmp", "policy", v);
  }

  lemma NtpServerPrints(v: string)
    ensures Render(Command(NtpServer, Some(v))) == "ntp" + " " + ("server" + " " + v)
  {
    NtpServerReads();
    RenderedThree(Command(NtpServer, Some(v)), "ntp", "server", v);
  }

  lemma NtpAuthenticatePrints()
    ensures Render(Command(NtpAuthenticate, None)) == "ntp" + " " + "authenticate"
  {
    NtpAuthenticateReads();
    RenderedTwo(Command(NtpAuthenticate, None), "ntp", "authenticate");
  }

  lemma BannerLoginPrints()
    ensures Render(Command(BannerLogin, None)) == "banner" + " " + "login"
  {
    BannerLoginReads();
    RenderedTwo(Command(BannerLogin, None), "banner", "login");
  }

  lemma EncryptionPrints(v: string)
    ensures Render(Command(EncryptionPhrase, Some(v))) == " " + ("encryption" + " " + v)
  {
    EncryptionPhraseReads();
    var c := Command(EncryptionPhrase, Some(v));
    assert WordsOf(c) == ["encryption"] + [v];
    Spaced("encryption", [v]);
  }

  // ------------------------------------------------------------------------ the whole text

  function Values(vs: seq<string>, first: string, second: string): seq<string> {
    seq(|vs|, i requires 0 <= i < |vs| => first + " " + (second + " " + vs[i]))
  }

  /** Two lines for every policy that has an id. */
  function PolicyLines(ike: seq<IkePolicy>): seq<string> {
    if ike == [] then []
    else
      var p := ike[0];
      (if p.id == None then []
       else
         ["crypto" + " " + ("isakmp" + " " + ("policy" + " " + Decimal(p.id.value))),
          " " + ("encryption" + " " + (if p.encryption == Des then "des" else "3des"))])
      + PolicyLines(ike[1..])
  }

  /** The lines of each section, in the order they are printed. */
  function Sheet(c: Candidate): seq<seq<string>> {
    [HostnameLine(c.hostname), VersionLine(c.sshVersion), TelnetLine(c.telnet), PasswordLine(c.passwordEncryption),
     HttpLine(c.http), Values(c.syslogHosts, "logging", "host"), Values(c.communities, "snmp-server", "community"),
     PolicyLines(c.ike), Values(c.ntpServers, "ntp", "server"),
     if c.ntpAuthentication then ["ntp" + " " + "authenticate"] else [],
     if c.banner then ["banner" + " " + "login"] else []]
  }

  function HostnameLine(o: Option<string>): seq<string> {
    match o
    case None => []
    case Some(v) => if v == "" then [] else ["hostname" + " " + v]
  }

  function VersionLine(o: Option<string>): seq<string> {
    match o
    case None => []
    case Some(v) => if v == "" then [] else ["ip" + " " + ("ssh" + " " + ("version" + " " + v))]
  }

  function TelnetLine(o: Option<bool>): seq<string> {
    match o
    case None => []
    case Some(on) =>
      if on then ["transport" + " " + ("input" + " " + "telnet")]
      else ["no" + " " + ("transport" + " " + ("input" + " " + "telnet"))]
  }

  function PasswordLine(o: Option<bool>): seq<string> {
    match o
    case None => []
    case Some(on) =>
      if on then ["service" + " " + "password-encryption"] else ["no" + " " + ("service" + " " + "password-encryption")]
  }

  function HttpLine(o: Option<bool>): seq<string> {
    match o
    case None => []
    case Some(on) =>
      if on then ["ip" + " " + ("http" + " " + "server")] else ["no" + " " + ("ip" + " " + ("http" + " " + "server"))]
  }

  function Joined(sections: seq<seq<string>>): seq<string> {
    if sections == [] then [] else sections[0] + Joined(sections[1..])
  }

  lemma MapConcat<T, U>(a: seq<T>, b: seq<T>, f: T -> U)
    ensures seq(|a + b|, i requires 0 <= i < |a + b| => f((a + b)[i]))
            == seq(|a|, i requires 0 <= i < |a| => f(a[i])) + seq(|b|, i requires 0 <= i < |b| => f(b[i]))
  {
  }

  lemma RenderConcat(a: seq<Command>, b: seq<Command>)
    ensures RenderAll(a + b) == RenderAll(a) + RenderAll(b)
  {
    MapConcat(a, b, Render);
  }

  ghost predicate Prints(sections: seq<seq<Command>>, sheet: seq<seq<string>>) {
    |sections| == |sheet| && forall i :: 0 <= i < |sheet| ==> RenderAll(sections[i]) == sheet[i]
  }

  lemma {:induction false} SectionsJoin(sections: seq<seq<Command>>, sheet: seq<seq<string>>)
    requires Prints(sections, sheet)
    ensures RenderAll(Concat(sections)) == Joined(sheet)
  {
    if sections == [] {
    } else {
      SectionsJoin(sections[1..], sheet[1..]);
      RenderConcat(sections[0], Concat(sections[1..]));
    }
  }

  lemma HostnameSection(o: Option<string>)
    ensures RenderAll(Single(o, HostnamePhrase)) == HostnameLine(o)
  {
    if o.Some? { HostnamePhrasePrints(o.value); }
  }

  lemma VersionSection(o: Option<string>)
    ensures RenderAll(Single(o, SshPhrase)) == VersionLine(o)
  {
    if o.Some? { SshPhrasePrints(o.value); }
  }

  lemma TelnetSection(o: Option<bool>)
    ensures RenderAll(Toggle(o, YesTelnet, NoTelnet)) == TelnetLine(o)
  {
    YesTelnetPrints();
    NoTelnetPrints();
  }

  lemma PasswordSection(o: Option<bool>)
    ensures RenderAll(Toggle(o, YesPassword, NoPassword)) == PasswordLine(o)
  {
    YesPasswordPrints();
    NoPasswordPrints();
  }

  lemma HttpSection(o: Option<bool>)
    ensures RenderAll(Toggle(o, YesHttp, NoHttp)) == HttpLine(o)
  {
    YesHttpPrints();
    NoHttpPrints();
  }

  lemma ValueSections(c: Candidate)
    ensures RenderAll(Each(c.syslogHosts, LogHost)) == Values(c.syslogHosts, "logging", "host")
    ensures RenderAll(Each(c.communities, SnmpCommunity)) == Values(c.communities, "snmp-server", "community")
    ensures RenderAll(Each(c.ntpServers, NtpServer)) == Values(c.ntpServers, "ntp", "server")
  {
    forall v { LogHostPrints(v); }
    forall v { SnmpCommunityPrints(v); }
    forall v { NtpServerPrints(v); }
  }

  lemma {:induction false} PolicySection(ike: seq<IkePolicy>)
    ensures RenderAll(Policies(ike)) == PolicyLines(ike)
  {
    if ike == [] {
    } else {
      var p := ike[0];
      PolicySection(ike[1..]);
      RenderConcat(PolicyCommands(p), Policies(ike[1..]));
      if p.id.Some? {
        IsakmpPolicyPrints(Decimal(p.id.value));
        EncryptionPrints(EncryptionText(p.encryption));
      }
    }
  }

  lemma MentionSections(c: Candidate)
    ensures RenderAll(When(c.ntpAuthentication, NtpAuthenticate))
            == if c.ntpAuthentication then ["ntp" + " " + "authenticate"] else []
    ensures RenderAll(When(c.banner, BannerLogin)) == if c.banner then ["banner" + " " + "login"] else []
  {
    NtpAuthenticatePrints();
    BannerLoginPrints();
  }

  /** The printed text is the sheet's lines, one after the other. */
  lemma PrintsTheSheet(c: Candidate)
    ensures Print(c) == Evidence.JoinLines(Joined(Sheet(c)))
  {
    HostnameSection(c.hostname);
    VersionSection(c.sshVersion);
    TelnetSection(c.telnet);
    PasswordSection(c.passwordEncryption);
    HttpSection(c.http);
    ValueSections(c);
    PolicySection(c.ike);
    MentionSections(c);
    SectionsJoin(Sections(c), Sheet(c));
  }
}
