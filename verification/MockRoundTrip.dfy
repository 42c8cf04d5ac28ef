/** Printing a candidate and extracting from the text gives the candidate back. */
module MockRoundTrip {
  import opened CliLexer
  import opened Common
  import opened MockExtractor
  import opened MockPrinter
  import opened PrintedIke
  import opened PrintedMatches
  import opened PrintedText

  // ----------------------------------------------------------- the values of each section

  lemma {:induction false} ValuesConcat(a: seq<Command>, b: seq<Command>, q: Phrase)
    ensures Values(a + b, q) == Values(a, q) + Values(b, q)
  {
    if a == [] {
      assert a + b == b;
    } else {
      ValuesConcat(a[1..], b, q);
      assert (a + b)[1..] == a[1..] + b;
      Associates(ValueOf(a[0], q), Values(a[1..], q), Values(b, q));
    }
  }

  /** Only one section prints values after the phrase. */
  lemma {:induction false} OnlySection(ss: seq<seq<Command>>, q: Phrase, i: nat)
    requires i < |ss| && forall j :: 0 <= j < |ss| && j != i ==> Values(ss[j], q) == []
    ensures Values(Concat(ss), q) == Values(ss[i], q)
  {
    ValuesConcat(ss[0], Concat(ss[1..]), q);
    if i == 0 {
      NoSection(ss[1..], q);
    } else {
      OnlySection(ss[1..], q, i - 1);
    }
  }

  lemma {:induction false} NoSection(ss: seq<seq<Command>>, q: Phrase)
    requires forall j :: 0 <= j < |ss| ==> Values(ss[j], q) == []
    ensures Values(Concat(ss), q) == []
  {
    if ss == [] {
    } else {
      ValuesConcat(ss[0], Concat(ss[1..]), q);
      NoSection(ss[1..], q);
    }
  }

  lemma {:induction false} OthersHaveNone(cs: seq<Command>, q: Phrase)
    requires forall i :: 0 <= i < |cs| ==> cs[i].phrase != q || cs[i].value.None?
    ensures Values(cs, q) == []
  {
    if cs == [] {
    } else {
      OthersHaveNone(cs[1..], q);
    }
  }

  lemma {:induction false} ValuesEach(vs: seq<string>, p: Phrase)
    ensures Values(Each(vs, p), p) == vs
  {
    if vs == [] {
    } else {
      assert Each(vs, p)[1..] == Each(vs[1..], p);
      ValuesEach(vs[1..], p);
    }
  }

  lemma {:induction false} PolicyPhrases(ike: seq<IkePolicy>)
    ensures forall i :: 0 <= i < |Policies(ike)| ==> Policies(ike)[i].phrase in {IsakmpPolicy, EncryptionPhrase}
  {
    if ike == [] {
    } else {
      PolicyPhrases(ike[1..]);
    }
  }

  /** The section that prints the values of a phrase. */
  function SectionOf(q: Phrase): nat {
    match q
    case HostnamePhrase => 0
    case SshPhrase => 1
    case LogHost => 5
    case SnmpCommunity => 6
    case NtpServer => 8
    case _ => 7
  }

  /** The other sections print no value after the phrase. */
  lemma OtherSections(c: Candidate, q: Phrase, j: nat)
    requires j < |Sections(c)| && j != SectionOf(q) && q != IsakmpPolicy && q != EncryptionPhrase
    ensures Values(Sections(c)[j], q) == []
  {
    PolicyPhrases(c.ike);
    OthersHaveNone(Sections(c)[j], q);
  }

  function ValueList(o: Option<string>): seq<string> { if o.Some? && o.value != "" then [o.value] else [] }

  function FieldValues(c: Candidate, q: Phrase): seq<string> {
    match q
    case HostnamePhrase => ValueList(c.hostname)
    case SshPhrase => ValueList(c.sshVersion)
    case LogHost => c.syslogHosts
    case SnmpCommunity => c.communities
    case NtpServer => c.ntpServers
    case _ => []
  }

  predicate IsField(q: Phrase) { q.HostnamePhrase? || q.SshPhrase? || q.LogHost? || q.SnmpCommunity? || q.NtpServer? }

  /** The values printed for a phrase are those of its field. */
  lemma ValuesOfCommands(c: Candidate, q: Phrase)
    requires IsField(q)
    ensures Values(Commands(c), q) == FieldValues(c, q)
  {
    ValuesOfSection(c, q);
    SectionOfField(c, q);
  }

  lemma SectionOfField(c: Candidate, q: Phrase)
    requires IsField(q)
    ensures Values(Sections(c)[SectionOf(q)], q) == FieldValues(c, q)
  {
    match q {
      case HostnamePhrase => ValuesSingle(c.hostname, q);
      case SshPhrase => ValuesSingle(c.sshVersion, q);
      case LogHost => ValuesEach(c.syslogHosts, q);
      case SnmpCommunity => ValuesEach(c.communities, q);
      case NtpServer => ValuesEach(c.ntpServers, q);
      case _ => assert false;
    }
  }

  lemma ValuesOfSection(c: Candidate, q: Phrase)
    requires q != IsakmpPolicy && q != EncryptionPhrase
    ensures Values(Commands(c), q) == Values(Sections(c)[SectionOf(q)], q)
  {
    var ss := Sections(c);
    forall j | 0 <= j < |ss| && j != SectionOf(q) ensures Values(ss[j], q) == [] { OtherSections(c, q, j); }
    OnlySection(ss, q, SectionOf(q));
  }

  lemma ValuesSingle(o: Option<string>, p: Phrase)
    ensures Values(Single(o, p), p) == ValueList(o)
  {
    if ValueList(o) != [] { assert Single(o, p)[1..] == []; }
  }

  // ------------------------------------------------------------------ what is mentioned

  lemma MentionsConcat(a: seq<Command>, b: seq<Command>, q: Phrase)
    ensures Mentions(a + b, q) <==> Mentions(a, q) || Mentions(b, q)
  {
    var cs := a + b;
    if Mentions(a, q) {
      var i :| 0 <= i < |a| && a[i].phrase == q;
      assert cs[i].phrase == q;
    }
    if Mentions(b, q) {
      var i :| 0 <= i < |b| && b[i].phrase == q;
      assert cs[|a| + i].phrase == q;
    }
    if Mentions(cs, q) {
      var i :| 0 <= i < |cs| && cs[i].phrase == q;
      if i < |a| { assert a[i].phrase == q; } else { assert b[i - |a|].phrase == q; }
    }
  }

  ghost predicate SomeMentions(ss: seq<seq<Command>>, q: Phrase) { exists j :: 0 <= j < |ss| && Mentions(ss[j], q) }

  lemma {:induction false} MentionedSomewhere(ss: seq<seq<Command>>, q: Phrase)
    ensures Mentions(Concat(ss), q) <==> SomeMentions(ss, q)
  {
    if ss == [] {
    } else {
      MentionsConcat(ss[0], Concat(ss[1..]), q);
      MentionedSomewhere(ss[1..], q);
      if SomeMentions(ss[1..], q) {
        var j :| 0 <= j < |ss[1..]| && Mentions(ss[1..][j], q);
        assert Mentions(ss[j + 1], q);
      }
      if j :| 0 <= j < |ss| && Mentions(ss[j], q) {
        if j > 0 { assert Mentions(ss[1..][j - 1], q); }
      }
    }
  }

  /** The one section that can mention a phrase without a value. */
  function FlagSection(q: Phrase): nat {
    match q
    case NoTelnet => 2
    case YesTelnet => 2
    case YesPassword => 3
    case NoPassword => 3
    case NoHttp => 4
    case YesHttp => 4
    case NtpAuthenticate => 9
    case _ => 10
  }

  predicate IsSet(o: Option<bool>, b: bool) { o.Some? && o.value == b }

  /** The field behind a phrase without a value. */
  function Flag(c: Candidate, q: Phrase): bool {
    match q
    case NoTelnet => IsSet(c.telnet, false)
    case YesTelnet => IsSet(c.telnet, true)
    case YesPassword => IsSet(c.passwordEncryption, true)
    case NoPassword => IsSet(c.passwordEncryption, false)
    case NoHttp => IsSet(c.http, false)
    case YesHttp => IsSet(c.http, true)
    case NtpAuthenticate => c.ntpAuthentication
    case BannerLogin => c.banner
    case _ => false
  }

  lemma MentionsWhen(b: bool, p: Phrase, q: Phrase)
    ensures Mentions(When(b, p), q) <==> b && p == q
  {
    if b { assert When(b, p)[0].phrase == p; }
  }

  /** The sections of values mention no phrase without one. */
  lemma ValueSections(c: Candidate, q: Phrase)
    requires EndsAtBoundary(q)
    ensures !Mentions(Single(c.hostname, HostnamePhrase), q) && !Mentions(Single(c.sshVersion, SshPhrase), q)
    ensures !Mentions(Each(c.syslogHosts, LogHost), q) && !Mentions(Each(c.communities, SnmpCommunity), q)
    ensures !Mentions(Policies(c.ike), q) && !Mentions(Each(c.ntpServers, NtpServer), q)
  {
    PolicyPhrases(c.ike);
  }

  lemma MentionsToggle(o: Option<bool>, yes: Phrase, no: Phrase, q: Phrase)
    ensures Mentions(Toggle(o, yes, no), q) <==> o.Some? && Chosen(o, yes, no) == q
  {
    MentionsWhen(o.Some?, Chosen(o, yes, no), q);
  }

  lemma SectionFlags(c: Candidate, q: Phrase, j: nat)
    requires EndsAtBoundary(q) && j < |Sections(c)|
    ensures Mentions(Sections(c)[j], q) <==> j == FlagSection(q) && Flag(c, q)
  {
    var s := Sections(c)[j];
    if j == 2 {
      assert s == Toggle(c.telnet, YesTelnet, NoTelnet);
      MentionsToggle(c.telnet, YesTelnet, NoTelnet, q);
    } else if j == 3 {
      assert s == Toggle(c.passwordEncryption, YesPassword, NoPassword);
      MentionsToggle(c.passwordEncryption, YesPassword, NoPassword, q);
    } else if j == 4 {
      assert s == Toggle(c.http, YesHttp, NoHttp);
      MentionsToggle(c.http, YesHttp, NoHttp, q);
    } else if j == 9 {
      assert s == When(c.ntpAuthentication, NtpAuthenticate);
      MentionsWhen(c.ntpAuthentication, NtpAuthenticate, q);
    } else if j == 10 {
      assert s == When(c.banner, BannerLogin);
      MentionsWhen(c.banner, BannerLogin, q);
    } else {
      ValueSections(c, q);
    }
  }

  /** A phrase without a value is printed exactly when its field says so. */
  lemma FlagsOfCommands(c: Candidate, q: Phrase)
    requires EndsAtBoundary(q)
    ensures Mentions(Commands(c), q) <==> Flag(c, q)
  {
    var ss := Sections(c);
    MentionedSomewhere(ss, q);
    if Flag(c, q) {
      SectionFlags(c, q, FlagSection(q));
      assert Mentions(ss[FlagSection(q)], q);
    } else {
      forall j | 0 <= j < |ss| ensures !Mentions(ss[j], q) { SectionFlags(c, q, j); }
    }
  }

  // ------------------------------------------------------------- all commands are proper

  ghost predicate IsListing(cs: seq<Command>) { AllProper(cs) && AllPrinted(cs) }

  lemma {:induction false} ConcatIsListing(ss: seq<seq<Command>>)
    requires forall j :: 0 <= j < |ss| ==> IsListing(ss[j])
    ensures IsListing(Concat(ss))
  {
    if ss == [] {
    } else {
      ConcatIsListing(ss[1..]);
      ListingConcat(ss[0], Concat(ss[1..]));
    }
  }

  lemma ListingConcat(a: seq<Command>, b: seq<Command>)
    requires IsListing(a) && IsListing(b)
    ensures IsListing(a + b)
  {
  }

  /** What the extractor can produce: its values are words, and there is no authentication
    * without a server. A community string may also come from a quoted FortiOS name. */
  ghost predicate Producible(c: Candidate) {
    && (c.hostname.Some? ==> IsToken(c.hostname.value))
    && (c.sshVersion.Some? ==> c.sshVersion.value in SSH_VERSIONS)
    && AllTokens(c.syslogHosts) && AllTokens(c.ntpServers)
    && (forall i :: 0 <= i < |c.communities| ==> IsToken(c.communities[i]) || IsName(c.communities[i]))
    && (c.ntpAuthentication ==> c.ntpServers != [])
  }

  lemma SingleIsListing(o: Option<string>, p: Phrase)
    requires TakesValue(p) && (o.Some? ==> IsToken(o.value))
    ensures IsListing(Single(o, p))
  {
  }

  lemma EachIsListing(vs: seq<string>, p: Phrase)
    requires TakesValue(p) && AllTokens(vs)
    ensures IsListing(Each(vs, p))
  {
  }

  lemma WhenIsListing(b: bool, p: Phrase)
    requires !TakesValue(p) && IsPrinted(p)
    ensures IsListing(When(b, p))
  {
  }

  lemma VersionsAreTokens(v: string)
    requires v in SSH_VERSIONS
    ensures IsToken(v)
  {
  }

  lemma SectionIsListing(c: Candidate, j: nat)
    requires Producible(c) && AllTokens(c.communities) && j < |Sections(c)|
    ensures IsListing(Sections(c)[j])
  {
    var s := Sections(c)[j];
    if j == 0 {
      SingleIsListing(c.hostname, HostnamePhrase);
    } else if j == 1 {
      if c.sshVersion.Some? { VersionsAreTokens(c.sshVersion.value); }
      SingleIsListing(c.sshVersion, SshPhrase);
    } else if j == 2 {
      WhenIsListing(c.telnet.Some?, if IsSet(c.telnet, true) then YesTelnet else NoTelnet);
    } else if j == 3 {
      WhenIsListing(c.passwordEncryption.Some?, if IsSet(c.passwordEncryption, true) then YesPassword else NoPassword);
    } else if j == 4 {
      WhenIsListing(c.http.Some?, if IsSet(c.http, true) then YesHttp else NoHttp);
    } else if j == 5 {
      EachIsListing(c.syslogHosts, LogHost);
    } else if j == 6 {
      EachIsListing(c.communities, SnmpCommunity);
    } else if j == 7 {
      PoliciesAreProper(c.ike);
      PolicyPhrases(c.ike);
    } else if j == 8 {
      EachIsListing(c.ntpServers, NtpServer);
    } else if j == 9 {
      WhenIsListing(c.ntpAuthentication, NtpAuthenticate);
    } else {
      WhenIsListing(c.banner, BannerLogin);
    }
  }

  lemma SectionsAreListings(c: Candidate)
    requires Producible(c) && AllTokens(c.communities)
    ensures forall j :: 0 <= j < |Sections(c)| ==> IsListing(Sections(c)[j])
    ensures IsListing(Commands(c))
  {
    forall j | 0 <= j < |Sections(c)| ensures IsListing(Sections(c)[j]) { SectionIsListing(c, j); }
    ConcatIsListing(Sections(c));
  }

  // ------------------------------------------------------------------- the policies

  lemma {:induction false} ConcatSplit(ss: seq<seq<Command>>, i: nat)
    requires i <= |ss|
    ensures Concat(ss) == Concat(ss[..i]) + Concat(ss[i..])
  {
    if i > 0 {
      ConcatSplit(ss[1..], i - 1);
      assert ss[..i][0] == ss[0] && ss[..i][1..] == ss[1..][..i - 1] && ss[1..][i - 1..] == ss[i..];
      Associates(ss[0], Concat(ss[..i][1..]), Concat(ss[i..]));
    }
  }

  lemma OnlyPoliciesMention(c: Candidate, j: nat, q: Phrase)
    requires j < |Sections(c)| && j != 7 && (q == IsakmpPolicy || q == EncryptionPhrase)
    ensures Mentions(Sections(c)[j], q) == false
  {
  }

  lemma PoliciesOfCommands(c: Candidate)
    requires Producible(c) && AllTokens(c.communities)
    ensures IkePolicies(LinesOf(Commands(c))) == WithIds(c.ike)
  {
    var ss := Sections(c);
    var before, after := Concat(ss[..7]), Concat(ss[8..]);
    SectionsAreListings(c);
    ConcatIsListing(ss[..7]);
    ConcatIsListing(ss[8..]);
    forall j, q | 0 <= j < |ss| && j != 7 && (q == IsakmpPolicy || q == EncryptionPhrase)
      ensures !Mentions(ss[j], q)
    {
      OnlyPoliciesMention(c, j, q);
    }
    NoneMentions(ss[..7], IsakmpPolicy);
    NoneMentions(ss[8..], IsakmpPolicy);
    NoneMentions(ss[8..], EncryptionPhrase);
    NotMentionedFirst(after);
    PoliciesAreRead(c.ike, after);
    PoliciesAreProper(c.ike);
    ProperConcat(Policies(c.ike), after);
    SkipCommands(before, Policies(c.ike) + after);
    ConcatSplit(ss, 7);
    assert ss[7..][0] == Policies(c.ike) && ss[7..][1..] == ss[8..];
  }

  lemma NoneMentions(ss: seq<seq<Command>>, q: Phrase)
    requires forall j :: 0 <= j < |ss| ==> !Mentions(ss[j], q)
    ensures Mentions(Concat(ss), q) == false
  {
    MentionedSomewhere(ss, q);
  }

  lemma NotMentionedFirst(cs: seq<Command>)
    requires !Mentions(cs, EncryptionPhrase)
    ensures FlushFirst(cs)
  {
    if cs != [] { assert cs[0].phrase == EncryptionPhrase ==> Mentions(cs, EncryptionPhrase); }
  }

  // -------------------------------------------------------------------- field by field

  /** A list of commands that prints this candidate. */
  ghost predicate Prints(cs: seq<Command>, c: Candidate) {
    && IsListing(cs)
    && (forall q :: IsField(q) ==> Values(cs, q) == FieldValues(c, q))
    && (forall q :: EndsAtBoundary(q) ==> (Mentions(cs, q) <==> Flag(c, q)))
    && IkePolicies(LinesOf(cs)) == WithIds(c.ike)
  }

  lemma CommandsPrint(c: Candidate)
    requires Producible(c) && AllTokens(c.communities)
    ensures Prints(Commands(c), c)
  {
    SectionsAreListings(c);
    forall q | IsField(q) ensures Values(Commands(c), q) == FieldValues(c, q) { ValuesOfCommands(c, q); }
    forall q | EndsAtBoundary(q) ensures Mentions(Commands(c), q) <==> Flag(c, q) { FlagsOfCommands(c, q); }
    PoliciesOfCommands(c);
  }

  lemma SetIsNotPrinted(cs: seq<Command>, q: Phrase)
    requires AllPrinted(cs) && !IsPrinted(q)
    ensures Mentions(cs, q) == false
  {
  }

  lemma HostnameIsRead(cs: seq<Command>, c: Candidate)
    requires Prints(cs, c) && Producible(c)
    ensures HostnameOf(LinesOf(cs)) == c.hostname
  {
    PhraseReads(cs, HostnamePhrase);
    FindFirstIsValue(cs, HostnamePhrase, PhraseText(HostnamePhrase));
    assert Values(cs, HostnamePhrase) == ValueList(c.hostname);
    SetIsNotPrinted(cs, SetHostName);
    SetIsNotPrinted(cs, SetDeviceHostname);
    UnprintedIsNotFound(cs, SetHostName);
    UnprintedIsNotFound(cs, SetDeviceHostname);
  }

  lemma VersionIsRead(cs: seq<Command>, c: Candidate)
    requires Prints(cs, c) && Producible(c)
    ensures VersionOf(LinesOf(cs)) == c.sshVersion
  {
    PhraseReads(cs, SshPhrase);
    assert Values(cs, SshPhrase) == ValueList(c.sshVersion);
    if c.sshVersion.Some? { VersionsAreTokens(c.sshVersion.value); }
    FindLastIsValue(cs, SshPhrase, PhraseText(SshPhrase), SSH_VERSIONS);
  }

  lemma FlagIsRead(cs: seq<Command>, c: Candidate, q: Phrase)
    requires Prints(cs, c) && EndsAtBoundary(q)
    ensures Has(LinesOf(cs), q) <==> Flag(c, q)
  {
    HasIsMention(cs, q);
  }

  /** The lines hold a phrase exactly when its field says so. */
  ghost predicate ReadsFlags(lines: seq<Line>, c: Candidate) {
    forall q :: EndsAtBoundary(q) ==> (Has(lines, q) <==> Flag(c, q))
  }

  lemma FlagsAreRead(cs: seq<Command>, c: Candidate)
    requires Prints(cs, c)
    ensures ReadsFlags(LinesOf(cs), c)
  {
    forall q | EndsAtBoundary(q) ensures Has(LinesOf(cs), q) <==> Flag(c, q) { FlagIsRead(cs, c, q); }
  }

  lemma FlagDecides(o: Option<bool>, yes: bool, no: bool)
    requires yes == IsSet(o, true) && no == IsSet(o, false)
    ensures o == if no then Some(false) else if yes then Some(true) else None
  {
  }

  lemma TelnetIsRead(lines: seq<Line>, c: Candidate)
    requires ReadsFlags(lines, c)
    ensures TelnetOf(lines) == c.telnet
  {
    assert !Has(lines, SetTelnetDisable) && !Has(lines, SetTelnetEnable);
    FlagDecides(c.telnet, Has(lines, YesTelnet), Has(lines, NoTelnet));
  }

  lemma PasswordIsRead(lines: seq<Line>, c: Candidate)
    requires ReadsFlags(lines, c)
    ensures PasswordOf(lines) == c.passwordEncryption
  {
    FlagDecides(c.passwordEncryption, Has(lines, YesPassword), Has(lines, NoPassword));
  }

  lemma HttpIsRead(lines: seq<Line>, c: Candidate)
    requires ReadsFlags(lines, c) && !HasWordAfter(lines, PhraseText(SetAllowAccess), Spell(Http))
    ensures HttpOf(lines) == c.http
  {
    FlagDecides(c.http, Has(lines, YesHttp), Has(lines, NoHttp));
  }

  lemma NoAllowAccess(cs: seq<Command>)
    requires AllPrinted(cs)
    ensures HasWordAfter(LinesOf(cs), PhraseText(SetAllowAccess), Spell(Http)) == false
  {
    SetIsNotPrinted(cs, SetAllowAccess);
    UnprintedIsNotFound(cs, SetAllowAccess);
  }

  lemma ListIsRead(cs: seq<Command>, c: Candidate, q: Phrase)
    requires Prints(cs, c) && IsField(q)
    ensures FindAll(LinesOf(cs), PhraseText(q)) == FieldValues(c, q)
  {
    PhraseReads(cs, q);
    FindAllIsValues(cs, q, PhraseText(q));
  }

  lemma NoBlocks(cs: seq<Command>)
    requires IsListing(cs)
    ensures !HasBlock(Flat(LinesOf(cs)), SYSTEM, SNMP, COMMUNITY)
    ensures !HasBlock(Flat(LinesOf(cs)), VPN, IPSEC, PHASE1)
  {
    PrintedIsCalm(cs, SYSTEM);
    PrintedIsCalm(cs, VPN);
    CalmHasNoBlock(Flat(LinesOf(cs)), SYSTEM, SNMP, COMMUNITY);
    CalmHasNoBlock(Flat(LinesOf(cs)), VPN, IPSEC, PHASE1);
  }

  lemma HostsAreRead(cs: seq<Command>, c: Candidate)
    requires Prints(cs, c)
    ensures HostsOf(LinesOf(cs)) == c.syslogHosts && ServersOf(LinesOf(cs)) == c.ntpServers
  {
    ListIsRead(cs, c, LogHost);
    ListIsRead(cs, c, NtpServer);
  }

  lemma CommunitiesAreRead(cs: seq<Command>, c: Candidate, text: string, forti: FortiOs)
    requires Prints(cs, c)
    ensures CommunitiesOf(text, LinesOf(cs), forti) == c.communities
  {
    ListIsRead(cs, c, SnmpCommunity);
    NoBlocks(cs);
  }

  lemma PoliciesAreReadBack(cs: seq<Command>, c: Candidate, text: string, forti: FortiOs)
    requires Prints(cs, c)
    ensures IkeOf(text, LinesOf(cs), forti) == WithIds(c.ike)
  {
    NoBlocks(cs);
  }

  // --------------------------------------------------------------------- main results

  ghost predicate ReadsScalars(lines: seq<Line>, c: Candidate) {
    HostnameOf(lines) == c.hostname && VersionOf(lines) == c.sshVersion
  }

  ghost predicate ReadsToggles(lines: seq<Line>, c: Candidate) {
    && TelnetOf(lines) == c.telnet && PasswordOf(lines) == c.passwordEncryption && HttpOf(lines) == c.http
    && Has(lines, NtpAuthenticate) == c.ntpAuthentication && Has(lines, BannerLogin) == c.banner
  }

  ghost predicate ReadsLists(lines: seq<Line>, c: Candidate, text: string, forti: FortiOs) {
    && HostsOf(lines) == c.syslogHosts && ServersOf(lines) == c.ntpServers
    && CommunitiesOf(text, lines, forti) == c.communities && IkeOf(text, lines, forti) == WithIds(c.ike)
  }

  lemma ScalarsAreRead(cs: seq<Command>, c: Candidate)
    requires Prints(cs, c) && Producible(c)
    ensures ReadsScalars(LinesOf(cs), c)
  {
    HostnameIsRead(cs, c);
    VersionIsRead(cs, c);
  }

  lemma TogglesAreRead(lines: seq<Line>, c: Candidate)
    requires ReadsFlags(lines, c) && !HasWordAfter(lines, PhraseText(SetAllowAccess), Spell(Http))
    ensures ReadsToggles(lines, c)
  {
    TelnetIsRead(lines, c);
    PasswordIsRead(lines, c);
    HttpIsRead(lines, c);
    OthersAreRead(lines, c);
  }

  lemma OthersAreRead(lines: seq<Line>, c: Candidate)
    requires ReadsFlags(lines, c)
    ensures Has(lines, NtpAuthenticate) == c.ntpAuthentication && Has(lines, BannerLogin) == c.banner
  {
  }

  lemma ListsAreRead(cs: seq<Command>, c: Candidate, text: string, forti: FortiOs)
    requires Prints(cs, c)
    ensures ReadsLists(LinesOf(cs), c, text, forti)
  {
    HostsAreRead(cs, c);
    CommunitiesAreRead(cs, c, text, forti);
    PoliciesAreReadBack(cs, c, text, forti);
  }

  lemma Assembled(c: Candidate, text: string, lines: seq<Line>, forti: FortiOs)
    requires ReadsScalars(lines, c) && ReadsToggles(lines, c) && ReadsLists(lines, c, text, forti) && Producible(c)
    ensures ExtractLines(text, lines, forti) == c.(ike := WithIds(c.ike))
  {
  }

  lemma CommandsAreRead(cs: seq<Command>, c: Candidate, text: string, forti: FortiOs)
    requires Prints(cs, c) && Producible(c)
    ensures ExtractLines(text, LinesOf(cs), forti) == c.(ike := WithIds(c.ike))
  {
    ScalarsAreRead(cs, c);
    FlagsAreRead(cs, c);
    NoAllowAccess(cs);
    TogglesAreRead(LinesOf(cs), c);
    ListsAreRead(cs, c, text, forti);
    Assembled(c, text, LinesOf(cs), forti);
  }

  lemma BlankLine(text: string, forti: FortiOs)
    ensures ExtractLines(text, [Line(Flush, [])], forti) == ExtractLines(text, [], forti)
  {
  }

  /** For every candidate the extractor can produce, if its community strings are words, then
    * extracting from its printed text gives it back, but for IKE policies without an id. */
  lemma RoundTrip(c: Candidate, forti: FortiOs)
    requires Producible(c) && AllTokens(c.communities)
    ensures Extract(Print(c), forti) == c.(ike := WithIds(c.ike))
  {
    var cs := Commands(c);
    CommandsPrint(c);
    CommandsAreRead(cs, c, Print(c), forti);
    if cs == [] {
      LexNothing();
      BlankLine(Print(c), forti);
    } else {
      LexPrinted(cs);
    }
  }

  /** So it gives the same candidate exactly when every policy carries an id. */
  lemma RoundTripExactly(c: Candidate, forti: FortiOs)
    requires Producible(c) && AllTokens(c.communities)
    ensures Extract(Print(c), forti) == c <==> forall p :: p in c.ike ==> p.id.Some?
  {
    RoundTrip(c, forti);
    AllKept(c.ike);
  }

  lemma {:induction false} AllKept(ike: seq<IkePolicy>)
    ensures WithIds(ike) == ike <==> forall p :: p in ike ==> p.id.Some?
    ensures forall p :: p in WithIds(ike) <==> p in ike && p.id.Some?
  {
    if ike == [] {
    } else {
      AllKept(ike[1..]);
    }
  }
}
