/** How much of a candidate survives printing and extracting: its leaf facts, as a set. */
module Fidelity {
  import opened Common
  import opened MockExtractor
  import opened MockPrinter

  /** The keys of the candidate dictionary; any other is named. */
  datatype Key =
    | SchemaVersion | Device | SshKey | TelnetKey | Aaa | Services | LoggingKey | NtpKey | Banners
    | SnmpKey | CryptoKey | Topology
    | DetectedVendor | DetectedOs | DetectedOsVersion | DetectedHardwareModel | ConfigSha256 | ParsingConfidence
    | UnknownBlocksCount | RawHostname | Enabled | VersionKey | PasswordEncryptionKey | HttpServerEnabled
    | SyslogEnabled | SyslogHosts | Servers | AuthenticationEnabled | LoginBannerPresent | CommunityStrings
    | IkePolicyList | PolicyId | EncryptionKey | OtherKey(name: string)

  datatype Json =
    | Null
    | Bool(b: bool)
    | Number(n: int)
    | Text(s: string)
    | List(items: seq<Json>)
    | Dict(fields: map<Key, Json>)

  datatype Fact = Fact(path: seq<Key>, value: string)

  const DEVICE_FIELDS_EXCLUDED: set<Key> :=
    {DetectedVendor, DetectedOs, DetectedOsVersion, DetectedHardwareModel, ConfigSha256, ParsingConfidence, UnknownBlocksCount}

  predicate IsExcluded(prefix: seq<Key>, key: Key) {
    (prefix == [Device] && key in DEVICE_FIELDS_EXCLUDED) || (prefix == [] && key == Topology)
  }

  predicate IsPlaceholder(s: string) { s in {"", "UNKNOWN", "unknown", "NONE", "none"} }

  function Digits(n: int): string { if n < 0 then "-" + Decimal(-n) else Decimal(n) }

  /** The (path, value) pairs of the leaves, blind to order and to placeholders. */
  function LeafFacts(prefix: seq<Key>, v: Json): set<Fact>
    decreases v
  {
    match v
    case Null => {}
    case Bool(b) => {Fact(prefix, if b then "True" else "False")}
    case Number(n) => {Fact(prefix, Digits(n))}
    case Text(s) => if IsPlaceholder(s) then {} else {Fact(prefix, s)}
    case List(items) => set item, f | item in items && f in LeafFacts(prefix, item) :: f
    case Dict(fields) =>
      set key, f | key in fields && !IsExcluded(prefix, key) && f in LeafFacts(prefix + [key], fields[key]) :: f
  }

  /** The share of some facts that others keep; 1 if there are none. */
  function ShareKept(facts: set<Fact>, others: set<Fact>): real {
    if facts == {} then 1.0 else |facts * others| as real / |facts| as real
  }

  function ComputeFidelity(original: Json, roundtrip: Json): real {
    ShareKept(LeafFacts([], original), LeafFacts([], roundtrip))
  }

  /** Fidelity is a share, and it is 1 exactly when no fact is lost. */
  lemma FidelityIsFullExactly(original: Json, roundtrip: Json)
    ensures 0.0 <= ComputeFidelity(original, roundtrip) <= 1.0
    ensures ComputeFidelity(original, roundtrip) == 1.0 <==> LeafFacts([], original) <= LeafFacts([], roundtrip)
  {
    var a, b := LeafFacts([], original), LeafFacts([], roundtrip);
    KeptPart(a, b);
    if a != {} { Share(|a * b|, |a|); }
  }

  lemma KeptPart(a: set<Fact>, b: set<Fact>)
    ensures |a * b| <= |a| && (|a * b| == |a| <==> a <= b)
    ensures a != {} ==> |a| > 0
  {
    assert a == (a * b) + (a - b);
    if |a * b| == |a| {
      assert a - b == {};
      assert forall f :: f in a ==> f in b || f in a - b;
    }
    if a <= b { assert a * b == a; }
  }

  lemma Share(part: nat, whole: nat)
    requires part <= whole && whole > 0
    ensures 0.0 <= part as real / whole as real <= 1.0
    ensures part as real / whole as real == 1.0 <==> part == whole
  {
  }

  // ------------------------------------------------------------- candidates as dictionaries

  function Texts(ss: seq<string>): Json { List(seq(|ss|, i requires 0 <= i < |ss| => Text(ss[i]))) }

  function Status(b: bool): Json { Text(if b then "ENABLED" else "DISABLED") }

  function PolicyJson(p: IkePolicy): Json {
    Dict(map[PolicyId := if p.id.Some? then Number(p.id.value) else Null,
             EncryptionKey := Text(if p.encryption == Des then "DES" else "3DES")])
  }

  function PoliciesJson(ike: seq<IkePolicy>): Json {
    List(seq(|ike|, i requires 0 <= i < |ike| => PolicyJson(ike[i])))
  }

  function Present(b: bool, v: Json): Option<Json> { if b then Some(v) else None }

  const TOP_KEYS: set<Key> :=
    {SchemaVersion, Device, SshKey, TelnetKey, Aaa, Services, LoggingKey, NtpKey, Banners, SnmpKey, CryptoKey, Topology}

  /** Device identity and topology, which are no part of what the extraction is judged by. */
  datatype Surroundings = Surroundings(device: map<Key, Json>, topology: Option<Json>)

  ghost predicate IsSurroundings(s: Surroundings) { s.device.Keys <= DEVICE_FIELDS_EXCLUDED }

  function NtpJson(c: Candidate): Json {
    var fields := map[Enabled := Bool(true), Servers := Texts(c.ntpServers)];
    Dict(if c.ntpAuthentication then fields[AuthenticationEnabled := Bool(true)] else fields)
  }

  function DeviceJson(hostname: Option<string>, device: map<Key, Json>): Json {
    Dict(if hostname.Some? then device[RawHostname := Text(hostname.value)] else device)
  }

  /** The value under a top-level key, if the candidate has it. */
  function FieldJson(c: Candidate, s: Surroundings, k: Key): Option<Json> {
    match k
    case SchemaVersion => Some(Text("1.0.0"))
    case Device => Some(DeviceJson(c.hostname, s.device))
    case SshKey =>
      if c.sshVersion.Some? then Some(Dict(map[Enabled := Bool(true), VersionKey := Text(c.sshVersion.value)])) else None
    case TelnetKey => if c.telnet.Some? then Some(Dict(map[Enabled := Status(c.telnet.value)])) else None
    case Aaa =>
      if c.passwordEncryption.Some? then Some(Dict(map[PasswordEncryptionKey := Status(c.passwordEncryption.value)])) else None
    case Services => if c.http.Some? then Some(Dict(map[HttpServerEnabled := Status(c.http.value)])) else None
    case LoggingKey =>
      Present(c.syslogHosts != [], Dict(map[SyslogEnabled := Bool(true), SyslogHosts := Texts(c.syslogHosts)]))
    case NtpKey => Present(c.ntpServers != [], NtpJson(c))
    case Banners => Present(c.banner, Dict(map[LoginBannerPresent := Bool(true)]))
    case SnmpKey =>
      Present(c.communities != [], Dict(map[Enabled := Bool(true), CommunityStrings := Texts(c.communities)]))
    case CryptoKey => Present(c.ike != [], Dict(map[IkePolicyList := PoliciesJson(c.ike)]))
    case Topology => s.topology
    case _ => None
  }

  function ToJson(c: Candidate, s: Surroundings): Json {
    Dict(map k | k in TOP_KEYS && FieldJson(c, s, k).Some? :: FieldJson(c, s, k).value)
  }

  /** The facts under one top-level key. */
  function FactsAt(c: Candidate, s: Surroundings, k: Key): set<Fact> {
    var v := FieldJson(c, s, k);
    if v.Some? then LeafFacts([k], v.value) else {}
  }

  lemma TopFacts(fields: map<Key, Json>, f: Fact)
    ensures f in LeafFacts([], Dict(fields)) <==> exists k :: k in fields && k != Topology && f in LeafFacts([k], fields[k])
  {
    assert forall k: Key :: [] + [k] == [k];
    if f in LeafFacts([], Dict(fields)) {
      var k :| k in fields && !IsExcluded([], k) && f in LeafFacts([] + [k], fields[k]);
      assert f in LeafFacts([k], fields[k]);
    }
    if k :| k in fields && k != Topology && f in LeafFacts([k], fields[k]) {
      assert !IsExcluded([], k) && f in LeafFacts([] + [k], fields[k]);
    }
  }

  lemma FactsByKey(c: Candidate, s: Surroundings, f: Fact)
    ensures f in LeafFacts([], ToJson(c, s)) <==> exists k :: k in TOP_KEYS && k != Topology && f in FactsAt(c, s, k)
  {
    var fields := ToJson(c, s).fields;
    TopFacts(fields, f);
    if f in LeafFacts([], ToJson(c, s)) {
      var k :| k in fields && k != Topology && f in LeafFacts([k], fields[k]);
      assert k in TOP_KEYS && f in FactsAt(c, s, k);
    }
    if k :| k in TOP_KEYS && k != Topology && f in FactsAt(c, s, k) {
      assert k in fields && f in LeafFacts([k], fields[k]);
    }
  }

  /** A fact's path extends the prefix it was found under. */
  lemma {:induction false} PathsExtend(prefix: seq<Key>, v: Json, f: Fact)
    requires f in LeafFacts(prefix, v)
    ensures prefix <= f.path
    decreases v
  {
    match v {
      case List(items) =>
        var item :| item in items && f in LeafFacts(prefix, item);
        PathsExtend(prefix, item, f);
      case Dict(fields) =>
        var key :| key in fields && !IsExcluded(prefix, key) && f in LeafFacts(prefix + [key], fields[key]);
        PathsExtend(prefix + [key], fields[key], f);
      case _ =>
    }
  }
}
