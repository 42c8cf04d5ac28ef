/** What the mock extractor reads from any text, in the words of its lines. */
module ExtractorMeaning {
  import opened Common
  import opened CliLexer
  import opened MockExtractor
  import opened LinePatterns
  import Text

  // ------------------------------------------------------------- the words of the phrases

  lemma OneWord(p: Phrase, k: Keyword)
    requires Keywords(p) == [k]
    ensures PhraseText(p) == [Spell(k)]
  {
  }

  lemma TwoWords(p: Phrase, j: Keyword, k: Keyword)
    requires Keywords(p) == [j, k]
    ensures PhraseText(p) == [Spell(j), Spell(k)]
  {
  }

  lemma ThreeWords(p: Phrase, i: Keyword, j: Keyword, k: Keyword)
    requires Keywords(p) == [i, j, k]
    ensures PhraseText(p) == [Spell(i), Spell(j), Spell(k)]
  {
  }

  lemma FourWords(p: Phrase, i: Keyword, j: Keyword, k: Keyword, l: Keyword)
    requires Keywords(p) == [i, j, k, l]
    ensures PhraseText(p) == [Spell(i), Spell(j), Spell(k), Spell(l)]
  {
  }

  lemma HostnamePhraseReads()
    ensures PhraseText(HostnamePhrase) == ["hostname"]
  {
    OneWord(HostnamePhrase, Keyword.Hostname);
  }

  lemma SshPhraseReads()
    ensures PhraseText(SshPhrase) == ["ip", "ssh", "version"]
  {
    ThreeWords(SshPhrase, Keyword.Ip, Keyword.Ssh, Keyword.Version);
  }

  lemma NoTelnetReads()
    ensures PhraseText(NoTelnet) == ["no", "transport", "input", "telnet"]
  {
    FourWords(NoTelnet, Keyword.No, Keyword.Transport, Keyword.Input, Keyword.Telnet);
  }

  lemma YesTelnetReads()
    ensures PhraseText(YesTelnet) == ["transport", "input", "telnet"]
  {
    ThreeWords(YesTelnet, Keyword.Transport, Keyword.Input, Keyword.Telnet);
  }

  lemma YesPasswordReads()
    ensures PhraseText(YesPassword) == ["service", "password-encryption"]
  {
    TwoWords(YesPassword, Keyword.Service, Keyword.PasswordEncryption);
  }

  lemma NoPasswordReads()
    ensures PhraseText(NoPassword) == ["no", "service", "password-encryption"]
  {
    ThreeWords(NoPassword, Keyword.No, Keyword.Service, Keyword.PasswordEncryption);
  }

  lemma NoHttpReads()
    ensures PhraseText(NoHttp) == ["no", "ip", "http", "server"]
  {
    FourWords(NoHttp, Keyword.No, Keyword.Ip, Keyword.Http, Keyword.Server);
  }

  lemma YesHttpReads()
    ensures PhraseText(YesHttp) == ["ip", "http", "server"]
  {
    ThreeWords(YesHttp, Keyword.Ip, Keyword.Http, Keyword.Server);
  }

  lemma LogHostReads()
    ensures PhraseText(LogHost) == ["logging", "host"]
  {
    TwoWords(LogHost, Keyword.Logging, Keyword.Host);
  }

  lemma SnmpCommunityReads()
    ensures PhraseText(SnmpCommunity) == ["snmp-server", "community"]
  {
    TwoWords(SnmpCommunity, Keyword.SnmpServer, Keyword.Community);
  }

  lemma IsakmpPolicyReads()
    ensures PhraseText(IsakmpPolicy) == ["crypto", "isakmp", "policy"]
  {
    ThreeWords(IsakmpPolicy, Keyword.Crypto, Keyword.Isakmp, Keyword.Policy);
  }

  lemma EncryptionPhraseReads()
    ensures PhraseText(EncryptionPhrase) == ["encryption"]
  {
    OneWord(EncryptionPhrase, Keyword.Encrypt);
  }

  lemma NtpServerReads()
    ensures PhraseText(NtpServer) == ["ntp", "server"]
  {
    TwoWords(NtpServer, Keyword.Ntp, Keyword.Server);
  }

  lemma NtpAuthenticateReads()
    ensures PhraseText(NtpAuthenticate) == ["ntp", "authenticate"]
  {
    TwoWords(NtpAuthenticate, Keyword.Ntp, Keyword.Authenticate);
  }

  lemma BannerLoginReads()
    ensures PhraseText(BannerLogin) == ["banner", "login"]
  {
    TwoWords(BannerLogin, Keyword.Banner, Keyword.Login);
  }

  lemma SetHostNameReads()
    ensures PhraseText(SetHostName) == ["set", "system", "host-name"]
  {
    ThreeWords(SetHostName, Keyword.Set, Keyword.System, Keyword.HostName);
  }

  lemma SetDeviceHostnameReads()
    ensures PhraseText(SetDeviceHostname) == ["set", "deviceconfig", "system", "hostname"]
  {
    FourWords(SetDeviceHostname, Keyword.Set, Keyword.DeviceConfig, Keyword.System, Keyword.Hostname);
  }

  lemma SetTelnetDisableReads()
    ensures PhraseText(SetTelnetDisable) == ["set", "admin-telnet", "disable"]
  {
    ThreeWords(SetTelnetDisable, Keyword.Set, Keyword.AdminTelnet, Keyword.Disable);
  }

  lemma SetTelnetEnableReads()
    ensures PhraseText(SetTelnetEnable) == ["set", "admin-telnet", "enable"]
  {
    ThreeWords(SetTelnetEnable, Keyword.Set, Keyword.AdminTelnet, Keyword.Enable);
  }

  lemma SetAllowAccessReads()
    ensures PhraseText(SetAllowAccess) == ["set", "allowaccess"]
  {
    TwoWords(SetAllowAccess, Keyword.Set, Keyword.AllowAccess);
  }

  // ------------------------------------------------------------------------- switches

  /** Some line says the words of the phrase. */
  lemma HasExactly(lines: seq<Line>, p: Phrase, ws: seq<string>)
    requires PhraseText(p) == ws
    ensures ws != [] && (Has(lines, p) <==> Says(lines, ws))
  {
    PhraseExactly(lines, ws);
  }

  /** Telnet is read from the first of these four that some line says, and is unknown if none
    * does. */
  lemma TelnetExactly(text: string, forti: FortiOs)
    ensures var lines, telnet := Lex(text), Extract(text, forti).telnet;
            telnet == if Says(lines, ["no", "transport", "input", "telnet"]) then Some(false)
                      else if Says(lines, ["transport", "input", "telnet"]) then Some(true)
                      else if Says(lines, ["set", "admin-telnet", "disable"]) then Some(false)
                      else if Says(lines, ["set", "admin-telnet", "enable"]) then Some(true)
                      else None
  {
    NoTelnetReads();
    YesTelnetReads();
    SetTelnetDisableReads();
    SetTelnetEnableReads();
    TelnetFrom(Lex(text), ["no", "transport", "input", "telnet"], ["transport", "input", "telnet"],
               ["set", "admin-telnet", "disable"], ["set", "admin-telnet", "enable"]);
  }

  lemma TelnetFrom(lines: seq<Line>, a: seq<string>, b: seq<string>, c: seq<string>, d: seq<string>)
    requires PhraseText(NoTelnet) == a && PhraseText(YesTelnet) == b
    requires PhraseText(SetTelnetDisable) == c && PhraseText(SetTelnetEnable) == d
    ensures a != [] && b != [] && c != [] && d != []
    ensures TelnetOf(lines) == if Says(lines, a) then Some(false) else if Says(lines, b) then Some(true)
                               else if Says(lines, c) then Some(false) else if Says(lines, d) then Some(true) else None
  {
    HasExactly(lines, NoTelnet, a);
    HasExactly(lines, YesTelnet, b);
    HasExactly(lines, SetTelnetDisable, c);
    HasExactly(lines, SetTelnetEnable, d);
  }

  /** Password encryption is read from the first of these two that some line says. */
  lemma PasswordExactly(text: string, forti: FortiOs)
    ensures var lines, password := Lex(text), Extract(text, forti).passwordEncryption;
            password == if Says(lines, ["service", "password-encryption"]) then Some(true)
                        else if Says(lines, ["no", "service", "password-encryption"]) then Some(false)
                        else None
  {
    var lines := Lex(text);
    YesPasswordReads();
    NoPasswordReads();
    HasExactly(lines, YesPassword, ["service", "password-encryption"]);
    HasExactly(lines, NoPassword, ["no", "service", "password-encryption"]);
  }

  /** The web server is read from the first of these three; the last is a set allowaccess that
    * names http further along its line. */
  lemma HttpExactly(text: string, forti: FortiOs)
    ensures var lines, http := Lex(text), Extract(text, forti).http;
            http == if Says(lines, ["no", "ip", "http", "server"]) then Some(false)
                    else if Says(lines, ["ip", "http", "server"]) then Some(true)
                    else if SaysWithin(lines, ["set", "allowaccess"], "http") then Some(true)
                    else None
  {
    NoHttpReads();
    YesHttpReads();
    SetAllowAccessReads();
    HttpFrom(Lex(text), ["no", "ip", "http", "server"], ["ip", "http", "server"], ["set", "allowaccess"], "http");
  }

  lemma HttpFrom(lines: seq<Line>, a: seq<string>, b: seq<string>, c: seq<string>, w: string)
    requires PhraseText(NoHttp) == a && PhraseText(YesHttp) == b && PhraseText(SetAllowAccess) == c && Spell(Http) == w
    ensures a != [] && b != []
    ensures HttpOf(lines) == if Says(lines, a) then Some(false) else if Says(lines, b) then Some(true)
                             else if SaysWithin(lines, c, w) then Some(true) else None
  {
    HasExactly(lines, NoHttp, a);
    HasExactly(lines, YesHttp, b);
    WithinExactly(lines, c, w);
  }

  /** A banner is present exactly if some line says banner login; authentication of time servers
    * exactly if some line says so and there is one. */
  lemma MentionsExactly(text: string, forti: FortiOs)
    ensures var lines, c := Lex(text), Extract(text, forti);
            && (c.banner <==> Says(lines, ["banner", "login"]))
            && (c.ntpAuthentication <==> Says(lines, ["ntp", "authenticate"]) && c.ntpServers != [])
  {
    var lines := Lex(text);
    BannerLoginReads();
    NtpAuthenticateReads();
    HasExactly(lines, BannerLogin, ["banner", "login"]);
    HasExactly(lines, NtpAuthenticate, ["ntp", "authenticate"]);
  }

  // --------------------------------------------------------------------------- values

  /** The hostname is what the first hostname line gives; without one what the first set system
    * host-name line gives; and without that the first set deviceconfig system hostname line. */
  lemma HostnameExactly(text: string, forti: FortiOs, v: string)
    ensures var lines, hostname := Lex(text), Extract(text, forti).hostname;
            hostname == Some(v) <==>
            if !NoneGives(lines, ["hostname"]) then GivesFirst(lines, ["hostname"], v)
            else if !NoneGives(lines, ["set", "system", "host-name"]) then GivesFirst(lines, ["set", "system", "host-name"], v)
            else GivesFirst(lines, ["set", "deviceconfig", "system", "hostname"], v)
  {
    var lines := Lex(text);
    HostnamePhraseReads();
    SetHostNameReads();
    SetDeviceHostnameReads();
    FirstExactly(lines, ["hostname"], v);
    FirstExactly(lines, ["set", "system", "host-name"], v);
    FirstExactly(lines, ["set", "deviceconfig", "system", "hostname"], v);
  }

  /** The version is the first 1 or 2 that ends the line of an ip ssh version. */
  lemma VersionExactly(text: string, forti: FortiOs, v: string)
    ensures var lines, version := Lex(text), Extract(text, forti).sshVersion;
            version == Some(v) <==> ChoosesFirst(lines, ["ip", "ssh", "version"], {"1", "2"}, v)
  {
    SshPhraseReads();
    ChoiceExactly(Lex(text), ["ip", "ssh", "version"], {"1", "2"}, v);
  }

  /** The logging hosts and time servers are what their lines give, in order; whatever is found is
    * given by some line, even where a value stands on another line than its keywords. */
  lemma ListsExactly(text: string, forti: FortiOs)
    ensures var lines, c := Lex(text), Extract(text, forti);
            && (OnOneLine(lines, ["logging", "host"]) ==> c.syslogHosts == PerLine(lines, ["logging", "host"]))
            && (OnOneLine(lines, ["ntp", "server"]) ==> c.ntpServers == PerLine(lines, ["ntp", "server"]))
            && (forall v :: v in c.syslogHosts ==> exists i :: Gives(lines, i, ["logging", "host"], v))
            && (forall v :: v in c.ntpServers ==> exists i :: Gives(lines, i, ["ntp", "server"], v))
  {
    var lines := Lex(text);
    LogHostReads();
    NtpServerReads();
    ListExactly(lines, ["logging", "host"]);
    ListExactly(lines, ["ntp", "server"]);
  }

  lemma ListExactly(lines: seq<Line>, ws: seq<string>)
    ensures OnOneLine(lines, ws) ==> FindAll(lines, ws) == PerLine(lines, ws)
    ensures forall v :: v in FindAll(lines, ws) ==> exists i :: Gives(lines, i, ws, v)
  {
    if OnOneLine(lines, ws) { AllExactly(lines, ws); }
    forall v | v in FindAll(lines, ws) ensures exists i :: Gives(lines, i, ws, v) { var i := AllAreGiven(lines, ws, v); }
  }

  // ---------------------------------------------------------------------- FortiOS blocks

  /** Four words in a row: one that ends in config, two words, and one that begins a fourth. */
  predicate HeaderAt(ws: seq<string>, i: int, second: string, third: string, fourth: string) {
    && 0 <= i && i + 3 < |ws|
    && |ws[i]| >= 6 && Text.Lower(ws[i][|ws[i]| - 6..]) == "config"
    && Text.Lower(ws[i + 1]) == second && Text.Lower(ws[i + 2]) == third && Ends(ws[i + 3], fourth)
  }

  ghost predicate HasHeader(ws: seq<string>, second: string, third: string, fourth: string) {
    exists i :: HeaderAt(ws, i, second, third, fourth)
  }

  lemma {:induction false} BlockExactly(ws: seq<string>, second: string, third: string, fourth: string)
    ensures HasBlock(ws, second, third, fourth) <==> HasHeader(ws, second, third, fourth)
  {
    if ws == [] {
    } else {
      BlockExactly(ws[1..], second, third, fourth);
      assert BlockAt(ws, second, third, fourth) <==> HeaderAt(ws, 0, second, third, fourth);
      forall i | i > 0 ensures HeaderAt(ws, i, second, third, fourth) <==> HeaderAt(ws[1..], i - 1, second, third, fourth) {}
      if i :| HeaderAt(ws[1..], i, second, third, fourth) { assert HeaderAt(ws, i + 1, second, third, fourth); }
    }
  }

  /** set name, and then a word that begins with a quotation mark. */
  predicate QuotedAt(ws: seq<string>, i: int) {
    0 <= i && i + 2 < |ws| && Text.Lower(ws[i]) == "set" && Text.Lower(ws[i + 1]) == "name" && ws[i + 2] != ""
    && ws[i + 2][0] == '"'
  }

  ghost predicate QuotesName(ws: seq<string>) { exists i :: QuotedAt(ws, i) }

  lemma {:induction false} QuotedExactly(ws: seq<string>)
    ensures HasQuotedName(ws) <==> QuotesName(ws)
  {
    if ws == [] {
    } else {
      QuotedExactly(ws[1..]);
      assert HasQuotedName(ws) <==> QuotedAt(ws, 0) || HasQuotedName(ws[1..]);
      forall i | i > 0 ensures QuotedAt(ws, i) <==> QuotedAt(ws[1..], i - 1) {}
      if i :| QuotedAt(ws[1..], i) { assert QuotedAt(ws, i + 1); }
    }
  }

  /** The community strings of a text without a FortiOS block, or without a quoted name, are what
    * its snmp-server community lines give, in order; a block's names come after them. */
  lemma CommunitiesExactly(text: string, forti: FortiOs)
    requires OnOneLine(Lex(text), ["snmp-server", "community"])
    ensures var lines := Lex(text);
            Extract(text, forti).communities
            == PerLine(lines, ["snmp-server", "community"])
               + if HasHeader(Flat(lines), "system", "snmp", "community") && QuotesName(Flat(lines)) then
                   forti.names(text)
                 else
                   []
  {
    var lines := Lex(text);
    SnmpCommunityReads();
    AllExactly(lines, ["snmp-server", "community"]);
    BlockExactly(Flat(lines), "system", "snmp", "community");
    QuotedExactly(Flat(lines));
  }

  // --------------------------------------------------------------------------- policies

  /** A flush line of four words, crypto isakmp policy and a number. */
  predicate IsHeader(l: Line) {
    && l.lead == Flush && |l.words| == 4 && IsDigits(l.words[3])
    && Text.Lower(l.words[0]) == "crypto" && Text.Lower(l.words[1]) == "isakmp" && Text.Lower(l.words[2]) == "policy"
  }

  ghost predicate AllIndented(lines: seq<Line>) { forall l :: l in lines ==> l.lead == Indented }

  /** What follows a policy: nothing, or a line that is not indented and not blank. */
  predicate IsAfter(lines: seq<Line>) { lines != [] ==> lines[0].lead != Indented && lines[0].words != [] }

  /** The encryption an indented block names first. */
  ghost predicate Encrypts(body: seq<Line>, e: Encryption) {
    exists v :: GivesFirst(body, ["encryption"], v) && Text.Lower(v) == (if e == Des then "des" else "3des")
  }

  lemma {:induction false} TakesBody(body: seq<Line>, after: seq<Line>)
    requires AllIndented(body) && IsAfter(after)
    ensures TakeIndented(body + after) == body
  {
    if body == [] {
      assert body + after == after;
    } else {
      assert body[0] in body && (body + after)[1..] == body[1..] + after;
      assert forall l :: l in body[1..] ==> l in body;
      TakesBody(body[1..], after);
    }
  }

  lemma {:induction false} DropsBlanks(body: seq<Line>, after: seq<Line>) returns (rest: seq<Line>)
    requires AllIndented(body) && IsAfter(after)
    ensures TakeIndented(DropBlank(body + after)) == rest
    ensures FindFirst(rest, ["encryption"]) == FindFirst(body, ["encryption"])
  {
    if body == [] {
      assert body + after == after;
      rest := [];
      TakesBody([], after);
      assert [] + after == after;
    } else if body[0].words == [] {
      assert body[0] in body && (body + after)[1..] == body[1..] + after;
      assert forall l :: l in body[1..] ==> l in body;
      rest := DropsBlanks(body[1..], after);
    } else {
      assert (body + after)[0] == body[0];
      rest := body;
      TakesBody(body, after);
    }
  }

  lemma HeaderCaptures(header: Line, more: seq<Line>)
    requires IsHeader(header)
    ensures CaptureAt([header] + more, ["crypto", "isakmp", "policy"]) == Some(header.words[3])
    ensures EndsLine([header] + more, 4) && Rest([header] + more, 4) == more
  {
    var lines := [header] + more;
    assert lines[1..] == more;
    FlatFirst(lines);
  }

  lemma PolicyReads(header: Line, body: seq<Line>, after: seq<Line>)
    requires IsHeader(header) && AllIndented(body) && IsAfter(after)
    ensures IkeAt([header] + (body + after)) == PolicyFrom(Some(header.words[3]), true, FindFirst(body, ["encryption"]))
  {
    IsakmpPolicyReads();
    EncryptionPhraseReads();
    HeaderCaptures(header, body + after);
    var rest := DropsBlanks(body, after);
  }

  lemma PolicyFromExactly(id: string, encryption: Option<string>, e: Encryption)
    requires IsDigits(id)
    ensures var policy, mapped := PolicyFrom(Some(id), true, encryption),
                                  if encryption.Some? then MapEncryption(encryption.value) else None;
            && (policy == Some(IkePolicy(Some(ParseInt(id)), e)) <==> mapped == Some(e))
            && (policy == None <==> mapped == None)
  {
  }

  /** A policy header and its indented block are read as a policy exactly if the encryption that
    * the block names first is des or 3des, in any letter case; its id is the header's number. */
  lemma PolicyExactly(header: Line, body: seq<Line>, after: seq<Line>, e: Encryption)
    requires IsHeader(header) && AllIndented(body) && IsAfter(after)
    ensures var policy := IkeAt([header] + (body + after));
            && (policy == Some(IkePolicy(Some(ParseInt(header.words[3])), e)) <==> Encrypts(body, e))
            && (policy == None <==> !Encrypts(body, Des) && !Encrypts(body, TripleDes))
  {
    PolicyReads(header, body, after);
    PolicyFromExactly(header.words[3], FindFirst(body, ["encryption"]), e);
    EncryptionRead(body, Des);
    EncryptionRead(body, TripleDes);
  }

  lemma EncryptionRead(body: seq<Line>, e: Encryption)
    ensures var v := FindFirst(body, ["encryption"]); Encrypts(body, e) <==> v.Some? && MapEncryption(v.value) == Some(e)
  {
    assert |"des"| == 3 && |"3des"| == 4;
    var v := FindFirst(body, ["encryption"]);
    if v.Some? { FirstExactly(body, ["encryption"], v.value); }
    if Encrypts(body, e) {
      var w :| GivesFirst(body, ["encryption"], w) && Text.Lower(w) == (if e == Des then "des" else "3des");
      FirstExactly(body, ["encryption"], w);
    }
  }

  /** The policies are those the headers yield, line after line; a FortiOS block adds one without
    * an id for each of its proposals. */
  lemma IkeExactly(text: string, forti: FortiOs)
    ensures var lines, ike := Lex(text), Extract(text, forti).ike;
            var proposals := if HasHeader(Flat(lines), "vpn", "ipsec", "phase1-interface") then forti.proposals(text) else [];
            && |ike| == |Gather(IkeAt, lines)| + |proposals| && ike[..|ike| - |proposals|] == Gather(IkeAt, lines)
            && forall i :: 0 <= i < |proposals| ==> ike[|ike| - |proposals| + i] == IkePolicy(None, proposals[i])
  {
    BlockExactly(Flat(Lex(text)), "vpn", "ipsec", "phase1-interface");
  }

  // -------------------------------------------------------------------------- confidence

  /** The confidence is 0.20 if nothing was found, 0.65 for one kind of fact, 0.80 for two and 0.95
    * for more. */
  lemma ConfidenceExactly(fields: nat)
    ensures Confidence(fields) == if fields == 0 then 0.20 else if fields == 1 then 0.65 else if fields == 2 then 0.80 else 0.95
  {
  }

  datatype Kind = Name | SshVersion | Terminal | Passwords | Web | Syslog | Time | LoginBanner | Snmp | Ike

  /** The candidate holds facts of this kind. */
  predicate HoldsKind(c: Candidate, k: Kind) {
    match k
    case Name => c.hostname != None
    case SshVersion => c.sshVersion != None
    case Terminal => c.telnet != None
    case Passwords => c.passwordEncryption != None
    case Web => c.http != None
    case Syslog => c.syslogHosts != []
    case Time => c.ntpServers != []
    case LoginBanner => c.banner
    case Snmp => c.communities != []
    case Ike => c.ike != []
  }

  /** Every kind of fact counts once, and nothing else counts. */
  lemma EveryKindCounts(c: Candidate)
    ensures FieldsFound(c) == Unit(HoldsKind(c, Name)) + Unit(HoldsKind(c, SshVersion)) + Unit(HoldsKind(c, Terminal))
                              + Unit(HoldsKind(c, Passwords)) + Unit(HoldsKind(c, Web)) + Unit(HoldsKind(c, Syslog))
                              + Unit(HoldsKind(c, Time)) + Unit(HoldsKind(c, LoginBanner)) + Unit(HoldsKind(c, Snmp))
                              + Unit(HoldsKind(c, Ike))
  {
    forall b { OneIsUnit(b); }
  }

  function Unit(b: bool): nat { if b then 1 else 0 }

  lemma OneIsUnit(b: bool)
    ensures One(b) == Unit(b)
  {
  }
}
