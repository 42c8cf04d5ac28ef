/** The deterministic extractor that stands in for the language model. */
module MockExtractor {
  import opened CliLexer
  import opened Common
  import Text

  datatype Keyword =
    | Hostname | Ip | Ssh | Version | No | Transport | Input | Telnet | Service | PasswordEncryption | Http | Server
    | Logging | Host | SnmpServer | Community | Crypto | Isakmp | Policy | Encrypt | Ntp | Authenticate
    | Banner | Login | Set | System | HostName | DeviceConfig | AdminTelnet | Disable | Enable | AllowAccess

  function Spell(k: Keyword): string {
    match k
    case Hostname => "hostname"
    case Ip => "ip"
    case Ssh => "ssh"
    case Version => "version"
    case No => "no"
    case Transport => "transport"
    case Input => "input"
    case Telnet => "telnet"
    case Service => "service"
    case PasswordEncryption => "password-encryption"
    case Http => "http"
    case Server => "server"
    case Logging => "logging"
    case Host => "host"
    case SnmpServer => "snmp-server"
    case Community => "community"
    case Crypto => "crypto"
    case Isakmp => "isakmp"
    case Policy => "policy"
    case Encrypt => "encryption"
    case Ntp => "ntp"
    case Authenticate => "authenticate"
    case Banner => "banner"
    case Login => "login"
    case Set => "set"
    case System => "system"
    case HostName => "host-name"
    case DeviceConfig => "deviceconfig"
    case AdminTelnet => "admin-telnet"
    case Disable => "disable"
    case Enable => "enable"
    case AllowAccess => "allowaccess"
  }

  const CONFIG := "config"

  datatype Phrase =
    | HostnamePhrase | SshPhrase | NoTelnet | YesTelnet | YesPassword | NoPassword | NoHttp | YesHttp
    | LogHost | SnmpCommunity | IsakmpPolicy | EncryptionPhrase | NtpServer | NtpAuthenticate | BannerLogin
    | SetHostName | SetDeviceHostname | SetTelnetDisable | SetTelnetEnable | SetAllowAccess

  function Keywords(p: Phrase): (ks: seq<Keyword>)
    ensures ks != []
  {
    match p
    case HostnamePhrase => [Hostname]
    case SshPhrase => [Ip, Ssh, Version]
    case NoTelnet => [No, Transport, Input, Telnet]
    case YesTelnet => [Transport, Input, Telnet]
    case YesPassword => [Service, PasswordEncryption]
    case NoPassword => [No, Service, PasswordEncryption]
    case NoHttp => [No, Ip, Http, Server]
    case YesHttp => [Ip, Http, Server]
    case LogHost => [Logging, Host]
    case SnmpCommunity => [SnmpServer, Community]
    case IsakmpPolicy => [Crypto, Isakmp, Policy]
    case EncryptionPhrase => [Encrypt]
    case NtpServer => [Ntp, Server]
    case NtpAuthenticate => [Ntp, Authenticate]
    case BannerLogin => [Banner, Login]
    case SetHostName => [Set, System, HostName]
    case SetDeviceHostname => [Set, DeviceConfig, System, Hostname]
    case SetTelnetDisable => [Set, AdminTelnet, Disable]
    case SetTelnetEnable => [Set, AdminTelnet, Enable]
    case SetAllowAccess => [Set, AllowAccess]
  }

  function Spelled(ks: seq<Keyword>): (ws: seq<string>)
    ensures |ws| == |ks| && forall i :: 0 <= i < |ks| ==> ws[i] == Spell(ks[i])
  {
    seq(|ks|, i requires 0 <= i < |ks| => Spell(ks[i]))
  }

  function PhraseText(p: Phrase): (ws: seq<string>)
    ensures ws != []
  {
    Spelled(Keywords(p))
  }

  // ------------------------------------------------------------------------ candidates

  datatype Encryption = Des | TripleDes

  datatype IkePolicy = IkePolicy(id: Option<nat>, encryption: Encryption)

  /** What the extractor observes; an absent fact is None, empty or false. */
  datatype Candidate = Candidate(
    hostname: Option<string>, sshVersion: Option<string>, telnet: Option<bool>, passwordEncryption: Option<bool>,
    http: Option<bool>, syslogHosts: seq<string>, ntpServers: seq<string>, ntpAuthentication: bool, banner: bool,
    communities: seq<string>, ike: seq<IkePolicy>)

  /** Only these two tokens are mapped. */
  function MapEncryption(token: string): Option<Encryption> {
    var t := Text.Lower(token);
    if t == "des" then Some(Des) else if t == "3des" then Some(TripleDes) else None
  }

  /** What the text between a FortiOS block's header and its end yields, when it has one. */
  datatype FortiOs = FortiOs(names: string -> seq<string>, proposals: string -> seq<Encryption>)

  const SYSTEM := "system"
  const SNMP := "snmp"
  const COMMUNITY := "community"
  const VPN := "vpn"
  const IPSEC := "ipsec"
  const PHASE1 := "phase1-interface"

  /** A block header: config and three more words in a row; config may be the end of a longer word. */
  predicate BlockAt(ws: seq<string>, second: string, third: string, fourth: string) {
    |ws| >= 4 && EndsInConfig(ws[0]) && Is(ws[1], second) && Is(ws[2], third) && Opens(ws[3], fourth)
  }

  predicate EndsInConfig(w: string) { |w| >= |CONFIG| && Is(w[|w| - |CONFIG|..], CONFIG) }

  predicate HasBlock(ws: seq<string>, second: string, third: string, fourth: string) {
    ws != [] && (BlockAt(ws, second, third, fourth) || HasBlock(ws[1..], second, third, fourth))
  }

  const NAME := "name"

  predicate Quoted(w: string) { w != "" && w[0] == '"' }

  /** set name, then a word that begins with a quotation mark: no name is read without it. */
  predicate HasQuotedName(ws: seq<string>) {
    ws != [] && ((|ws| >= 3 && Is(ws[0], Spell(Set)) && Is(ws[1], NAME) && Quoted(ws[2])) || HasQuotedName(ws[1..]))
  }

  predicate IsName(s: string) { s != "" && '"' !in s }

  /** A name is what stands between two quotation marks. */
  ghost predicate YieldsNames(forti: FortiOs) {
    forall text, i :: 0 <= i < |forti.names(text)| ==> IsName(forti.names(text)[i])
  }

  // ------------------------------------------------------------------------ IKE blocks

  predicate IsDigits(w: string) { w != "" && forall i :: 0 <= i < |w| ==> '0' <= w[i] <= '9' }

  function ParseInt(w: string): nat
    requires forall i :: 0 <= i < |w| ==> '0' <= w[i] <= '9'
  {
    if w == "" then 0 else 10 * ParseInt(w[..|w| - 1]) + (w[|w| - 1] as int - '0' as int)
  }

  function DropBlank(lines: seq<Line>): seq<Line> {
    if lines != [] && lines[0].words == [] then DropBlank(lines[1..]) else lines
  }

  function TakeIndented(lines: seq<Line>): seq<Line> {
    if lines == [] || lines[0].lead != Indented then [] else [lines[0]] + TakeIndented(lines[1..])
  }

  /** crypto isakmp policy N, flush on this line and ending its line, with the indented lines
    * after it; the policy counts if they name an encryption that is mapped. */
  function IkeAt(lines: seq<Line>): Option<IkePolicy> {
    PolicyFrom(CaptureAt(lines, PhraseText(IsakmpPolicy)),
               lines != [] && lines[0].lead == Flush && EndsLine(lines, 4),
               FindFirst(TakeIndented(DropBlank(Rest(lines, 4))), PhraseText(EncryptionPhrase)))
  }

  function PolicyFrom(id: Option<string>, inPlace: bool, encryption: Option<string>): Option<IkePolicy> {
    if id.None? || !inPlace || !IsDigits(id.value) || encryption.None? then None
    else
      match MapEncryption(encryption.value)
      case None => None
      case Some(m) => Some(IkePolicy(Some(ParseInt(id.value)), m))
  }

  /** What a pattern finds at each line in turn. */
  function Gather<T>(f: seq<Line> -> Option<T>, lines: seq<Line>): seq<T> {
    if lines == [] then [] else (if f(lines).Some? then [f(lines).value] else []) + Gather(f, lines[1..])
  }

  function IkePolicies(lines: seq<Line>): seq<IkePolicy> { Gather(IkeAt, lines) }

  function WithoutId(es: seq<Encryption>): seq<IkePolicy> {
    seq(|es|, i requires 0 <= i < |es| => IkePolicy(None, es[i]))
  }

  // ---------------------------------------------------------------------- the extractor

  function OrElse<T>(a: Option<T>, b: Option<T>): Option<T> { if a.Some? then a else b }

  predicate Has(lines: seq<Line>, p: Phrase) { HasPhrase(lines, PhraseText(p)) }

  function TelnetOf(lines: seq<Line>): Option<bool> {
    if Has(lines, NoTelnet) then Some(false)
    else if Has(lines, YesTelnet) then Some(true)
    else if Has(lines, SetTelnetDisable) then Some(false)
    else if Has(lines, SetTelnetEnable) then Some(true)
    else None
  }

  function PasswordOf(lines: seq<Line>): Option<bool> {
    if Has(lines, YesPassword) then Some(true) else if Has(lines, NoPassword) then Some(false) else None
  }

  function HttpOf(lines: seq<Line>): Option<bool> {
    if Has(lines, NoHttp) then Some(false)
    else if Has(lines, YesHttp) then Some(true)
    else if HasWordAfter(lines, PhraseText(SetAllowAccess), Spell(Http)) then Some(true)
    else None
  }

  function CommunitiesOf(text: string, lines: seq<Line>, forti: FortiOs): seq<string> {
    FindAll(lines, PhraseText(SnmpCommunity))
    + (if HasBlock(Flat(lines), SYSTEM, SNMP, COMMUNITY) && HasQuotedName(Flat(lines)) then forti.names(text) else [])
  }

  function IkeOf(text: string, lines: seq<Line>, forti: FortiOs): seq<IkePolicy> {
    IkePolicies(lines)
    + (if HasBlock(Flat(lines), VPN, IPSEC, PHASE1) then WithoutId(forti.proposals(text)) else [])
  }

  const SSH_VERSIONS: set<string> := {"1", "2"}

  function HostnameOf(lines: seq<Line>): Option<string> {
    OrElse(FindFirst(lines, PhraseText(HostnamePhrase)),
           OrElse(FindFirst(lines, PhraseText(SetHostName)), FindFirst(lines, PhraseText(SetDeviceHostname))))
  }

  function VersionOf(lines: seq<Line>): Option<string> { FindLast(lines, PhraseText(SshPhrase), SSH_VERSIONS) }

  function HostsOf(lines: seq<Line>): seq<string> { FindAll(lines, PhraseText(LogHost)) }

  function ServersOf(lines: seq<Line>): seq<string> { FindAll(lines, PhraseText(NtpServer)) }

  function Extract(text: string, forti: FortiOs): Candidate { ExtractLines(text, Lex(text), forti) }

  function ExtractLines(text: string, lines: seq<Line>, forti: FortiOs): Candidate {
    Candidate(HostnameOf(lines), VersionOf(lines), TelnetOf(lines), PasswordOf(lines), HttpOf(lines), HostsOf(lines),
              ServersOf(lines), ServersOf(lines) != [] && Has(lines, NtpAuthenticate), Has(lines, BannerLogin),
              CommunitiesOf(text, lines, forti), IkeOf(text, lines, forti))
  }

  /** How many of the ten kinds of facts are there. */
  function FieldsFound(c: Candidate): nat {
    One(c.hostname.Some?) + One(c.sshVersion.Some?) + One(c.telnet.Some?) + One(c.passwordEncryption.Some?)
    + One(c.http.Some?) + One(c.syslogHosts != []) + One(c.ntpServers != []) + One(c.banner)
    + One(c.communities != []) + One(c.ike != [])
  }

  function One(b: bool): nat { if b then 1 else 0 }

  function Confidence(fields: nat): real {
    if fields == 0 then 0.20
    else if 0.5 + 0.15 * fields as real <= 0.95 then 0.5 + 0.15 * fields as real else 0.95
  }

  const NOTHING := Candidate(None, None, None, None, None, [], [], false, false, [], [])

  method MockResponse(text: string, forti: FortiOs) returns (result: Candidate, confidence: real)
    ensures result == Extract(text, forti) && confidence == Confidence(FieldsFound(result))
  {
    var lines := Lex(text);
    var ike := CollectMatches(IkeAt, lines);
    if HasBlock(Flat(lines), VPN, IPSEC, PHASE1) {
      ike := ike + WithoutId(forti.proposals(text));
    }
    var fields;
    result, fields := Assemble(HostnameOf(lines), VersionOf(lines), TelnetOf(lines), PasswordOf(lines), HttpOf(lines),
                               HostsOf(lines), ServersOf(lines), Has(lines, NtpAuthenticate), Has(lines, BannerLogin),
                               CommunitiesOf(text, lines, forti), ike);
    confidence := Confidence(fields);
  }

  /** Fill in the result field by field, counting the fields found. */
  method Assemble(hostname: Option<string>, version: Option<string>, telnet: Option<bool>, password: Option<bool>,
                  http: Option<bool>, hosts: seq<string>, servers: seq<string>, authenticated: bool, banner: bool,
                  communities: seq<string>, ike: seq<IkePolicy>)
    returns (result: Candidate, fields: nat)
    ensures result == Candidate(hostname, version, telnet, password, http, hosts, servers, servers != [] && authenticated,
                                banner, communities, ike)
    ensures fields == FieldsFound(result)
  {
    result, fields := AddScalars(hostname, version, telnet, password, http);
    result, fields := AddLists(result, fields, hosts, servers, authenticated);
    result, fields := AddRest(result, fields, banner, communities, ike);
  }

  method AddScalars(hostname: Option<string>, version: Option<string>, telnet: Option<bool>, password: Option<bool>,
                    http: Option<bool>)
    returns (result: Candidate, fields: nat)
    ensures result == Candidate(hostname, version, telnet, password, http, [], [], false, false, [], [])
    ensures fields == FieldsFound(result)
  {
    fields := 0;
    result := NOTHING;
    if hostname.Some? { result, fields := result.(hostname := hostname), fields + 1; }
    if version.Some? { result, fields := result.(sshVersion := version), fields + 1; }
    if telnet.Some? { result, fields := result.(telnet := telnet), fields + 1; }
    if password.Some? { result, fields := result.(passwordEncryption := password), fields + 1; }
    if http.Some? { result, fields := result.(http := http), fields + 1; }
  }

  method AddLists(before: Candidate, found: nat, hosts: seq<string>, servers: seq<string>, authenticated: bool)
    returns (result: Candidate, fields: nat)
    requires before.syslogHosts == [] && before.ntpServers == [] && !before.ntpAuthentication
    ensures result == before.(syslogHosts := hosts, ntpServers := servers, ntpAuthentication := servers != [] && authenticated)
    ensures fields == found + One(hosts != []) + One(servers != [])
  {
    result, fields := before, found;
    if hosts != [] { result, fields := result.(syslogHosts := hosts), fields + 1; }
    if servers != [] {
      result := result.(ntpServers := servers);
      if authenticated { result := result.(ntpAuthentication := true); }
      fields := fields + 1;
    }
  }

  method AddRest(before: Candidate, found: nat, banner: bool, communities: seq<string>, ike: seq<IkePolicy>)
    returns (result: Candidate, fields: nat)
    requires !before.banner && before.communities == [] && before.ike == []
    ensures result == before.(banner := banner, communities := communities, ike := ike)
    ensures fields == found + One(banner) + One(communities != []) + One(ike != [])
  {
    result, fields := before, found;
    if banner { result, fields := result.(banner := true), fields + 1; }
    if communities != [] { result, fields := result.(communities := communities), fields + 1; }
    if ike != [] { result, fields := result.(ike := ike), fields + 1; }
  }

  /** re.finditer, keeping what each match yields. */
  method CollectMatches<T>(f: seq<Line> -> Option<T>, lines: seq<Line>) returns (found: seq<T>)
    ensures found == Gather(f, lines)
  {
    found := [];
    for i := 0 to |lines|
      invariant found + Gather(f, lines[i..]) == Gather(f, lines)
    {
      assert lines[i..][1..] == lines[i + 1..];
      var m := f(lines[i..]);
      if m.Some? { found := found + [m.value]; }
    }
    assert lines[|lines|..] == [];
  }
}
