/** The facts a candidate is judged by, one by one. */
module FidelityFacts {
  import opened Common
  import opened MockExtractor
  import opened MockPrinter
  import opened Fidelity
  import opened FidelityTheorem

  /** A text that stands for a fact. */
  predicate Tells(s: string) { s != "" && s != "UNKNOWN" && s != "unknown" && s != "NONE" && s != "none" }

  function Switch(on: bool): string { if on then "ENABLED" else "DISABLED" }

  ghost predicate IsListed(path: seq<Key>, ss: seq<string>, f: Fact) { f.path == path && f.value in ss && Tells(f.value) }

  /** The candidate holds this fact under a top-level key. */
  ghost predicate Observed(c: Candidate, k: Key, f: Fact) {
    match k
    case SchemaVersion => f == Fact([k], "1.0.0")
    case Device => c.hostname.Some? && Tells(c.hostname.value) && f == Fact([k, RawHostname], c.hostname.value)
    case SshKey =>
      c.sshVersion.Some?
      && (f == Fact([k, Enabled], "True") || (Tells(c.sshVersion.value) && f == Fact([k, VersionKey], c.sshVersion.value)))
    case TelnetKey => c.telnet.Some? && f == Fact([k, Enabled], Switch(c.telnet.value))
    case Aaa => c.passwordEncryption.Some? && f == Fact([k, PasswordEncryptionKey], Switch(c.passwordEncryption.value))
    case Services => c.http.Some? && f == Fact([k, HttpServerEnabled], Switch(c.http.value))
    case LoggingKey =>
      c.syslogHosts != [] && (f == Fact([k, SyslogEnabled], "True") || IsListed([k, SyslogHosts], c.syslogHosts, f))
    case NtpKey =>
      c.ntpServers != []
      && (f == Fact([k, Enabled], "True") || IsListed([k, Servers], c.ntpServers, f)
          || (c.ntpAuthentication && f == Fact([k, AuthenticationEnabled], "True")))
    case Banners => c.banner && f == Fact([k, LoginBannerPresent], "True")
    case SnmpKey =>
      c.communities != [] && (f == Fact([k, Enabled], "True") || IsListed([k, CommunityStrings], c.communities, f))
    case CryptoKey => exists p :: p in c.ike && PolicyTells(p, f)
    case _ => false
  }

  /** A policy's id, if it has one, and its encryption. */
  predicate PolicyTells(p: IkePolicy, f: Fact) {
    || (p.id.Some? && f == Fact([CryptoKey, IkePolicyList, PolicyId], Decimal(p.id.value)))
    || f == Fact([CryptoKey, IkePolicyList, EncryptionKey], if p.encryption == Des then "DES" else "3DES")
  }

  // ------------------------------------------------------------------- key by key

  lemma TextTells(path: seq<Key>, s: string, f: Fact)
    ensures f in LeafFacts(path, Text(s)) <==> Tells(s) && f == Fact(path, s)
  {
  }

  lemma TextsTell(path: seq<Key>, ss: seq<string>, f: Fact)
    ensures f in LeafFacts(path, Texts(ss)) <==> IsListed(path, ss, f)
  {
    var items := Texts(ss).items;
    if f in LeafFacts(path, Texts(ss)) {
      var item :| item in items && f in LeafFacts(path, item);
      var i :| 0 <= i < |ss| && item == Text(ss[i]);
      TextTells(path, ss[i], f);
    }
    if IsListed(path, ss, f) {
      var i :| 0 <= i < |ss| && ss[i] == f.value;
      TextTells(path, ss[i], f);
      assert items[i] in items;
    }
  }

  /** The facts of a dictionary below a top-level key are those of its fields. */
  lemma FieldsTell(top: Key, fields: map<Key, Json>, f: Fact)
    requires top != Device
    ensures f in LeafFacts([top], Dict(fields)) <==> exists k :: k in fields && f in LeafFacts([top, k], fields[k])
  {
    assert forall k: Key :: [top] + [k] == [top, k];
    assert forall k: Key :: !IsExcluded([top], k);
  }

  lemma OneField(top: Key, key: Key, v: Json, f: Fact)
    requires top != Device
    ensures f in LeafFacts([top], Dict(map[key := v])) <==> f in LeafFacts([top, key], v)
  {
    FieldsTell(top, map[key := v], f);
    assert key in map[key := v];
  }

  lemma TwoFields(top: Key, j: Key, v: Json, k: Key, w: Json, f: Fact)
    requires top != Device && j != k
    ensures f in LeafFacts([top], Dict(map[j := v, k := w])) <==> f in LeafFacts([top, j], v) || f in LeafFacts([top, k], w)
  {
    var fields := map[j := v, k := w];
    FieldsTell(top, fields, f);
    assert j in fields && k in fields;
  }

  lemma ThreeFields(top: Key, i: Key, u: Json, j: Key, v: Json, k: Key, w: Json, f: Fact)
    requires top != Device && i != j && j != k && i != k
    ensures f in LeafFacts([top], Dict(map[i := u, j := v][k := w])) <==>
            f in LeafFacts([top, i], u) || f in LeafFacts([top, j], v) || f in LeafFacts([top, k], w)
  {
    var fields := map[i := u, j := v][k := w];
    FieldsTell(top, fields, f);
    assert i in fields && j in fields && k in fields;
  }

  lemma DeviceTells(c: Candidate, s: Surroundings, f: Fact)
    requires IsSurroundings(s)
    ensures f in FactsAt(c, s, Device) <==> Observed(c, Device, f)
  {
    DeviceFacts(c.hostname, s.device, f);
    assert [Device] + [RawHostname] == [Device, RawHostname];
  }

  lemma SwitchesTell(c: Candidate, s: Surroundings, k: Key, f: Fact)
    requires k in {SchemaVersion, TelnetKey, Aaa, Services, Banners}
    ensures f in FactsAt(c, s, k) <==> Observed(c, k, f)
  {
    match k
    case TelnetKey => if c.telnet.Some? { OneField(k, Enabled, Status(c.telnet.value), f); }
    case Aaa => if c.passwordEncryption.Some? { OneField(k, PasswordEncryptionKey, Status(c.passwordEncryption.value), f); }
    case Services => if c.http.Some? { OneField(k, HttpServerEnabled, Status(c.http.value), f); }
    case Banners => OneField(k, LoginBannerPresent, Bool(true), f);
    case _ =>
  }

  lemma VersionTells(c: Candidate, s: Surroundings, f: Fact)
    ensures f in FactsAt(c, s, SshKey) <==> Observed(c, SshKey, f)
  {
    if c.sshVersion.Some? {
      TwoFields(SshKey, Enabled, Bool(true), VersionKey, Text(c.sshVersion.value), f);
      TextTells([SshKey, VersionKey], c.sshVersion.value, f);
    }
  }

  lemma HostsTell(c: Candidate, s: Surroundings, f: Fact)
    ensures f in FactsAt(c, s, LoggingKey) <==> Observed(c, LoggingKey, f)
  {
    TwoFields(LoggingKey, SyslogEnabled, Bool(true), SyslogHosts, Texts(c.syslogHosts), f);
    TextsTell([LoggingKey, SyslogHosts], c.syslogHosts, f);
  }

  lemma CommunitiesTell(c: Candidate, s: Surroundings, f: Fact)
    ensures f in FactsAt(c, s, SnmpKey) <==> Observed(c, SnmpKey, f)
  {
    TwoFields(SnmpKey, Enabled, Bool(true), CommunityStrings, Texts(c.communities), f);
    TextsTell([SnmpKey, CommunityStrings], c.communities, f);
  }

  lemma TimeTells(c: Candidate, s: Surroundings, f: Fact)
    ensures f in FactsAt(c, s, NtpKey) <==> Observed(c, NtpKey, f)
  {
    TextsTell([NtpKey, Servers], c.ntpServers, f);
    if c.ntpAuthentication {
      ThreeFields(NtpKey, Enabled, Bool(true), Servers, Texts(c.ntpServers), AuthenticationEnabled, Bool(true), f);
    } else {
      TwoFields(NtpKey, Enabled, Bool(true), Servers, Texts(c.ntpServers), f);
    }
  }

  lemma PoliciesTell(c: Candidate, s: Surroundings, f: Fact)
    ensures f in FactsAt(c, s, CryptoKey) <==> Observed(c, CryptoKey, f)
  {
    CryptoFacts(c, s, f);
    assert POLICY_PATH + [PolicyId] == [CryptoKey, IkePolicyList, PolicyId];
    assert POLICY_PATH + [EncryptionKey] == [CryptoKey, IkePolicyList, EncryptionKey];
    forall p ensures IsPolicyFact(p, f) <==> PolicyTells(p, f) {}
  }

  lemma KeyTells(c: Candidate, s: Surroundings, k: Key, f: Fact)
    requires IsSurroundings(s) && k in TOP_KEYS && k != Topology
    ensures f in FactsAt(c, s, k) <==> Observed(c, k, f)
  {
    match k
    case Device => DeviceTells(c, s, f);
    case SshKey => VersionTells(c, s, f);
    case LoggingKey => HostsTell(c, s, f);
    case SnmpKey => CommunitiesTell(c, s, f);
    case NtpKey => TimeTells(c, s, f);
    case CryptoKey => PoliciesTell(c, s, f);
    case _ => SwitchesTell(c, s, k, f);
  }

  // ------------------------------------------------------------------------ main results

  /** The facts of a candidate are what it holds, and nothing of the device's identity or of the
    * topology around it. */
  lemma FactsExactly(c: Candidate, s: Surroundings, f: Fact)
    requires IsSurroundings(s)
    ensures f in LeafFacts([], ToJson(c, s)) <==> exists k :: Observed(c, k, f)
  {
    FactsByKey(c, s, f);
    if k :| k in TOP_KEYS && k != Topology && f in FactsAt(c, s, k) { KeyTells(c, s, k, f); }
    if k :| Observed(c, k, f) { KeyTells(c, s, k, f); }
  }

  /** x times the number of facts is the number of them that the others keep. */
  ghost predicate IsShare(x: real, facts: set<Fact>, others: set<Fact>) {
    Parts(x, |facts|, |facts * others|)
  }

  predicate Parts(x: real, all: nat, kept: nat) { x * all as real == kept as real }

  lemma ShareIsKept(facts: set<Fact>, others: set<Fact>)
    ensures IsShare(ShareKept(facts, others), facts, others)
  {
    if facts == {} {
      assert facts * others == {};
    } else {
      assert |facts| > 0;
      Over(|facts * others|, |facts|);
    }
  }

  lemma Over(part: nat, whole: nat)
    requires whole > 0
    ensures Parts(part as real / whole as real, whole, part)
  {
  }

  /** Fidelity times the number of facts is the number of them that are kept. */
  lemma FidelityIsTheShareKept(original: Json, roundtrip: Json)
    ensures IsShare(ComputeFidelity(original, roundtrip), LeafFacts([], original), LeafFacts([], roundtrip))
  {
    ShareIsKept(LeafFacts([], original), LeafFacts([], roundtrip));
  }
}
