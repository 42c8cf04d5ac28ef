/** When the round trip of the mock agents scores full fidelity. */
module FidelityTheorem {
  import opened CliLexer
  import opened Common
  import opened Fidelity
  import opened MockExtractor
  import opened MockPrinter
  import opened MockRoundTrip
  import opened PrintedIke
  import opened PrintedNames
  import opened PrintedText

  // ------------------------------------------------------------------------ by key

  ghost predicate CoveredAt(c: Candidate, s: Surroundings, c': Candidate, s': Surroundings, k: Key) {
    FactsAt(c, s, k) <= FactsAt(c', s', k)
  }

  /** No fact is lost exactly when none is lost under any key. */
  lemma CoveredByKey(c: Candidate, s: Surroundings, c': Candidate, s': Surroundings)
    ensures LeafFacts([], ToJson(c, s)) <= LeafFacts([], ToJson(c', s'))
            <==> forall k :: k in TOP_KEYS && k != Topology ==> CoveredAt(c, s, c', s', k)
  {
    if LeafFacts([], ToJson(c, s)) <= LeafFacts([], ToJson(c', s')) {
      forall k | k in TOP_KEYS && k != Topology ensures CoveredAt(c, s, c', s', k) {
        forall f | f in FactsAt(c, s, k) ensures f in FactsAt(c', s', k) { SameKey(c, s, c', s', k, f); }
      }
    }
    if forall k :: k in TOP_KEYS && k != Topology ==> CoveredAt(c, s, c', s', k) {
      forall f | f in LeafFacts([], ToJson(c, s)) ensures f in LeafFacts([], ToJson(c', s')) {
        FactsByKey(c, s, f);
        var k :| k in TOP_KEYS && k != Topology && f in FactsAt(c, s, k);
        assert CoveredAt(c, s, c', s', k);
        FactsByKey(c', s', f);
      }
    }
  }

  lemma SameKey(c: Candidate, s: Surroundings, c': Candidate, s': Surroundings, k: Key, f: Fact)
    requires k in TOP_KEYS && k != Topology && f in FactsAt(c, s, k)
    requires f in LeafFacts([], ToJson(c, s)) ==> f in LeafFacts([], ToJson(c', s'))
    ensures f in FactsAt(c', s', k)
  {
    FactsByKey(c, s, f);
    FactsByKey(c', s', f);
    var k' :| k' in TOP_KEYS && k' != Topology && f in FactsAt(c', s', k');
    PathsExtend([k], FieldJson(c, s, k).value, f);
    PathsExtend([k'], FieldJson(c', s', k').value, f);
    assert f.path[0] == k && f.path[0] == k';
  }

  /** Of the device only the hostname is a fact. */
  lemma DeviceFacts(hostname: Option<string>, device: map<Key, Json>, f: Fact)
    requires device.Keys <= DEVICE_FIELDS_EXCLUDED
    ensures f in LeafFacts([Device], DeviceJson(hostname, device))
            <==> hostname.Some? && f in LeafFacts([Device] + [RawHostname], Text(hostname.value))
  {
    var v := DeviceJson(hostname, device);
    if f in LeafFacts([Device], v) {
      var key :| key in v.fields && !IsExcluded([Device], key) && f in LeafFacts([Device] + [key], v.fields[key]);
      assert key == RawHostname;
    }
    if hostname.Some? && f in LeafFacts([Device] + [RawHostname], Text(hostname.value)) {
      assert RawHostname in v.fields && !IsExcluded([Device], RawHostname);
      assert v.fields[RawHostname] == Text(hostname.value);
    }
  }

  // ----------------------------------------------------------------------- policies

  const POLICY_PATH: seq<Key> := [CryptoKey, IkePolicyList]

  function EncryptionName(e: Encryption): string { if e == Des then "DES" else "3DES" }

  ghost predicate IsPolicyFact(p: IkePolicy, f: Fact) {
    || (p.id.Some? && f == Fact(POLICY_PATH + [PolicyId], Digits(p.id.value)))
    || f == Fact(POLICY_PATH + [EncryptionKey], EncryptionName(p.encryption))
  }

  lemma PolicyFacts(p: IkePolicy, f: Fact)
    ensures f in LeafFacts(POLICY_PATH, PolicyJson(p)) <==> IsPolicyFact(p, f)
  {
    var v := PolicyJson(p);
    assert v.fields.Keys == {PolicyId, EncryptionKey};
    assert POLICY_PATH != [Device] && POLICY_PATH != [];
    assert !IsExcluded(POLICY_PATH, PolicyId) && !IsExcluded(POLICY_PATH, EncryptionKey);
    assert v.fields[EncryptionKey] == Text(EncryptionName(p.encryption));
    assert LeafFacts(POLICY_PATH + [EncryptionKey], v.fields[EncryptionKey])
           == {Fact(POLICY_PATH + [EncryptionKey], EncryptionName(p.encryption))};
    assert LeafFacts(POLICY_PATH + [PolicyId], v.fields[PolicyId])
           == if p.id.Some? then {Fact(POLICY_PATH + [PolicyId], Digits(p.id.value))} else {};
    if f in LeafFacts(POLICY_PATH, v) {
      var key :| key in v.fields && !IsExcluded(POLICY_PATH, key) && f in LeafFacts(POLICY_PATH + [key], v.fields[key]);
      assert key == PolicyId || key == EncryptionKey;
    }
  }

  ghost predicate SomePolicyFact(ike: seq<IkePolicy>, f: Fact) { exists p :: p in ike && IsPolicyFact(p, f) }

  lemma ListFacts(ike: seq<IkePolicy>, f: Fact)
    ensures f in LeafFacts(POLICY_PATH, PoliciesJson(ike)) <==> SomePolicyFact(ike, f)
  {
    var items := PoliciesJson(ike).items;
    if f in LeafFacts(POLICY_PATH, PoliciesJson(ike)) {
      var item :| item in items && f in LeafFacts(POLICY_PATH, item);
      var i :| 0 <= i < |ike| && item == PolicyJson(ike[i]);
      PolicyFacts(ike[i], f);
    }
    if p :| p in ike && IsPolicyFact(p, f) {
      PolicyFacts(p, f);
      var i :| 0 <= i < |ike| && ike[i] == p;
      assert items[i] == PolicyJson(p);
    }
  }

  lemma CryptoFacts(c: Candidate, s: Surroundings, f: Fact)
    ensures f in FactsAt(c, s, CryptoKey) <==> SomePolicyFact(c.ike, f)
  {
    ListFacts(c.ike, f);
    OnlyField(CryptoKey, IkePolicyList, PoliciesJson(c.ike), f);
    assert [CryptoKey] + [IkePolicyList] == POLICY_PATH;
  }

  /** The facts of a dictionary with a single field. */
  lemma OnlyField(top: Key, key: Key, v: Json, f: Fact)
    requires top != Device
    ensures f in LeafFacts([top], Dict(map[key := v])) <==> f in LeafFacts([top] + [key], v)
  {
    var fields := map[key := v];
    assert !IsExcluded([top], key);
    assert key in fields && fields[key] == v;
  }

  /** Every encryption named without an id is also named with one. */
  ghost predicate IdsCover(ike: seq<IkePolicy>) {
    forall p :: p in ike ==> Covered(ike, p)
  }

  ghost predicate Covered(ike: seq<IkePolicy>, p: IkePolicy) {
    exists q :: q in ike && q.id.Some? && q.encryption == p.encryption
  }

  lemma PoliciesCoveredExactly(c: Candidate, s: Surroundings, s': Surroundings)
    ensures CoveredAt(c, s, c.(ike := WithIds(c.ike)), s', CryptoKey) <==> IdsCover(c.ike)
  {
    var c' := c.(ike := WithIds(c.ike));
    AllKept(c.ike);
    if IdsCover(c.ike) {
      forall f | f in FactsAt(c, s, CryptoKey) ensures f in FactsAt(c', s', CryptoKey) {
        CryptoFacts(c, s, f);
        CryptoFacts(c', s', f);
        PolicyFactKept(c.ike, f);
      }
    }
    if CoveredAt(c, s, c', s', CryptoKey) {
      forall p | p in c.ike ensures Covered(c.ike, p) { EncryptionKept(c, s, c', s', p); }
    }
  }

  lemma PolicyFactKept(ike: seq<IkePolicy>, f: Fact)
    requires IdsCover(ike) && SomePolicyFact(ike, f)
    ensures SomePolicyFact(WithIds(ike), f)
  {
    var p :| p in ike && IsPolicyFact(p, f);
    assert Covered(ike, p);
    var q :| q in ike && q.id.Some? && q.encryption == p.encryption;
    var kept := if p.id.Some? then p else q;
    if p.id.None? { SharedEncryption(p, q, f); }
    KeptIsThere(ike, kept);
    assert IsPolicyFact(kept, f);
  }

  lemma KeptIsThere(ike: seq<IkePolicy>, p: IkePolicy)
    requires p in ike && p.id.Some?
    ensures p in WithIds(ike)
  {
    AllKept(ike);
  }

  lemma SharedEncryption(p: IkePolicy, q: IkePolicy, f: Fact)
    requires p.id.None? && q.encryption == p.encryption && IsPolicyFact(p, f)
    ensures IsPolicyFact(q, f)
  {
  }

  lemma EncryptionKept(c: Candidate, s: Surroundings, c': Candidate, s': Surroundings, p: IkePolicy)
    requires CoveredAt(c, s, c', s', CryptoKey) && p in c.ike
    ensures exists q :: q in c'.ike && q.encryption == p.encryption
  {
    var f := Fact(POLICY_PATH + [EncryptionKey], EncryptionName(p.encryption));
    CryptoFacts(c, s, f);
    assert IsPolicyFact(p, f);
    CryptoFacts(c', s', f);
    var q :| q in c'.ike && IsPolicyFact(q, f);
    assert (POLICY_PATH + [PolicyId])[2] != (POLICY_PATH + [EncryptionKey])[2];
    assert EncryptionName(q.encryption) == EncryptionName(p.encryption);
    assert |EncryptionName(Des)| != |EncryptionName(TripleDes)|;
  }

  // -------------------------------------------------------------------- communities

  const COMMUNITY_PATH: seq<Key> := [SnmpKey, CommunityStrings]

  /** A community string is a fact, and the only facts of that path are community strings. */
  lemma CommunityFacts(c: Candidate, s: Surroundings, community: string)
    requires !IsPlaceholder(community)
    ensures Fact(COMMUNITY_PATH, community) in FactsAt(c, s, SnmpKey) <==> community in c.communities
  {
    var f := Fact(COMMUNITY_PATH, community);
    var list := Texts(c.communities);
    var fields := map[Enabled := Bool(true), CommunityStrings := list];
    assert [SnmpKey] + [CommunityStrings] == COMMUNITY_PATH;
    assert !IsExcluded([SnmpKey], CommunityStrings) && !IsExcluded([SnmpKey], Enabled);
    TextFacts(COMMUNITY_PATH, c.communities, community);
    assert LeafFacts([SnmpKey] + [Enabled], Bool(true)) == {Fact([SnmpKey] + [Enabled], "True")};
    assert ([SnmpKey] + [Enabled])[1] != COMMUNITY_PATH[1];
    if f in LeafFacts([SnmpKey], Dict(fields)) {
      var key :| key in fields && !IsExcluded([SnmpKey], key) && f in LeafFacts([SnmpKey] + [key], fields[key]);
      assert key == CommunityStrings;
    }
    if community in c.communities {
      assert CommunityStrings in fields && f in LeafFacts([SnmpKey] + [CommunityStrings], fields[CommunityStrings]);
    }
  }

  lemma TextFacts(path: seq<Key>, ss: seq<string>, t: string)
    requires !IsPlaceholder(t)
    ensures Fact(path, t) in LeafFacts(path, Texts(ss)) <==> t in ss
  {
    var items := Texts(ss).items;
    if Fact(path, t) in LeafFacts(path, Texts(ss)) {
      var item :| item in items && Fact(path, t) in LeafFacts(path, item);
      var i :| 0 <= i < |ss| && item == Text(ss[i]);
    }
    if t in ss {
      var i :| 0 <= i < |ss| && ss[i] == t;
      assert items[i] == Text(t) && Fact(path, t) in LeafFacts(path, items[i]);
    }
  }

  // ------------------------------------------------------- what the extractor produces

  ghost predicate WordsOnly(lines: seq<Line>) { forall i :: 0 <= i < |lines| ==> AllTokens(lines[i].words) }

  lemma {:induction false} FlatTokens(lines: seq<Line>)
    requires WordsOnly(lines)
    ensures AllTokens(Flat(lines))
  {
    if lines == [] {
    } else {
      FlatTokens(lines[1..]);
    }
  }

  lemma {:induction false} RestTokens(lines: seq<Line>, n: int)
    requires WordsOnly(lines)
    ensures WordsOnly(Rest(lines, n))
  {
    if lines != [] && n > 0 { RestTokens(lines[1..], n - |lines[0].words|); }
  }

  lemma {:induction false} FoundAreTokens(lines: seq<Line>, keywords: seq<string>)
    requires WordsOnly(lines)
    ensures AllTokens(FindAll(lines, keywords))
    decreases |lines|
  {
    if lines == [] {
    } else {
      FlatTokens(lines);
      if CaptureAt(lines, keywords).Some? {
        var n := |keywords| + 1 - |lines[0].words|;
        RestTokens(lines[1..], n);
        FoundAreTokens(Rest(lines[1..], n), keywords);
      } else {
        FoundAreTokens(lines[1..], keywords);
      }
    }
  }

  lemma {:induction false} FirstIsToken(lines: seq<Line>, keywords: seq<string>)
    requires WordsOnly(lines)
    ensures FindFirst(lines, keywords).Some? ==> IsToken(FindFirst(lines, keywords).value)
  {
    if lines == [] {
    } else {
      FlatTokens(lines);
      FirstIsToken(lines[1..], keywords);
    }
  }

  lemma {:induction false} LastIsChoice(lines: seq<Line>, keywords: seq<string>, choices: set<string>)
    ensures FindLast(lines, keywords, choices).Some? ==> FindLast(lines, keywords, choices).value in choices
  {
    if lines == [] {
    } else {
      LastIsChoice(lines[1..], keywords, choices);
    }
  }

  /** Every text yields a producible candidate. */
  lemma ExtractIsProducible(text: string, forti: FortiOs)
    requires YieldsNames(forti)
    ensures Producible(Extract(text, forti))
  {
    var lines := Lex(text);
    assert WordsOnly(lines);
    HostnameIsToken(lines);
    LastIsChoice(lines, PhraseText(SshPhrase), SSH_VERSIONS);
    FoundAreTokens(lines, PhraseText(LogHost));
    FoundAreTokens(lines, PhraseText(NtpServer));
    FoundAreTokens(lines, PhraseText(SnmpCommunity));
    CommunitiesAreValues(text, lines, forti);
  }

  lemma CommunitiesAreValues(text: string, lines: seq<Line>, forti: FortiOs)
    requires YieldsNames(forti) && AllTokens(FindAll(lines, PhraseText(SnmpCommunity)))
    ensures forall i :: 0 <= i < |CommunitiesOf(text, lines, forti)| ==> IsValue(CommunitiesOf(text, lines, forti)[i])
  {
  }

  lemma HostnameIsToken(lines: seq<Line>)
    requires WordsOnly(lines)
    ensures HostnameOf(lines).Some? ==> IsToken(HostnameOf(lines).value)
  {
    FirstIsToken(lines, PhraseText(HostnamePhrase));
    FirstIsToken(lines, PhraseText(SetHostName));
    FirstIsToken(lines, PhraseText(SetDeviceHostname));
  }

  // --------------------------------------------------------------------- main results

  lemma OtherFieldsKept(c: Candidate, s: Surroundings, ike: seq<IkePolicy>, s': Surroundings, k: Key)
    requires IsSurroundings(s) && IsSurroundings(s') && k != CryptoKey && k != Topology
    ensures CoveredAt(c, s, c.(ike := ike), s', k)
  {
    if k == Device {
      forall f | f in FactsAt(c, s, Device) ensures f in FactsAt(c.(ike := ike), s', Device) {
        DeviceFacts(c.hostname, s.device, f);
        DeviceFacts(c.hostname, s'.device, f);
      }
    } else {
      assert FieldJson(c, s, k) == FieldJson(c.(ike := ike), s', k);
    }
  }

  /** With community strings that are words, the round trip has full fidelity exactly when
    * every encryption is named by some policy with an id. */
  lemma FidelityOfWords(c: Candidate, s: Surroundings, s': Surroundings, forti: FortiOs)
    requires Producible(c) && AllTokens(c.communities) && IsSurroundings(s) && IsSurroundings(s')
    ensures ComputeFidelity(ToJson(c, s), ToJson(Extract(Print(c), forti), s')) == 1.0 <==> IdsCover(c.ike)
  {
    RoundTrip(c, forti);
    var c' := c.(ike := WithIds(c.ike));
    FidelityIsFullExactly(ToJson(c, s), ToJson(c', s'));
    CoveredByKey(c, s, c', s');
    PoliciesCoveredExactly(c, s, s');
    forall k | k in TOP_KEYS && k != Topology && k != CryptoKey ensures CoveredAt(c, s, c', s', k) {
      OtherFieldsKept(c, s, WithIds(c.ike), s', k);
    }
    assert CryptoKey in TOP_KEYS;
  }

  lemma ReadBackAreWords(c: Candidate, forti: FortiOs)
    requires Producible(c)
    ensures AllTokens(Extract(Print(c), forti).communities)
  {
    var lines := Lex(Print(c));
    assert WordsOnly(lines);
    FoundAreTokens(lines, PhraseText(SnmpCommunity));
    PrintedHasNoName(c);
    assert Extract(Print(c), forti).communities == FindAll(lines, PhraseText(SnmpCommunity));
  }

  /** Printing and extracting gives the same candidate exactly when its community strings are
    * words and its policies have ids. */
  lemma IdentityExactly(c: Candidate, forti: FortiOs)
    requires Producible(c)
    ensures Extract(Print(c), forti) == c <==> AllTokens(c.communities) && forall p :: p in c.ike ==> p.id.Some?
  {
    ReadBackAreWords(c, forti);
    if AllTokens(c.communities) { RoundTripExactly(c, forti); }
  }

  /** A community string that is not a word is lost. */
  lemma OtherCommunitiesAreLost(c: Candidate, s: Surroundings, s': Surroundings, forti: FortiOs)
    requires Producible(c) && !AllTokens(c.communities)
    ensures ComputeFidelity(ToJson(c, s), ToJson(Extract(Print(c), forti), s')) < 1.0
  {
    ReadBackAreWords(c, forti);
    var i :| 0 <= i < |c.communities| && !IsToken(c.communities[i]);
    CommunityIsLost(c, s, s', Extract(Print(c), forti), c.communities[i]);
  }

  lemma CommunityIsLost(c: Candidate, s: Surroundings, s': Surroundings, c': Candidate, community: string)
    requires community in c.communities && community != "" && !IsToken(community) && AllTokens(c'.communities)
    ensures ComputeFidelity(ToJson(c, s), ToJson(c', s')) < 1.0
  {
    NoPlaceholder(community);
    CommunityFacts(c, s, community);
    CommunityFacts(c', s', community);
    FidelityIsFullExactly(ToJson(c, s), ToJson(c', s'));
    CoveredByKey(c, s, c', s');
    assert !CoveredAt(c, s, c', s', SnmpKey);
    assert SnmpKey in TOP_KEYS && SnmpKey != Topology;
  }

  lemma NoPlaceholder(community: string)
    requires community != "" && !IsToken(community)
    ensures !IsPlaceholder(community)
  {
  }

  /** Both together: for everything the extractor can produce, full fidelity means exactly that
    * all community strings are words and that the policies with ids name every encryption. */
  lemma FidelityExactly(c: Candidate, s: Surroundings, s': Surroundings, forti: FortiOs)
    requires Producible(c) && IsSurroundings(s) && IsSurroundings(s')
    ensures ComputeFidelity(ToJson(c, s), ToJson(Extract(Print(c), forti), s')) == 1.0
            <==> AllTokens(c.communities) && IdsCover(c.ike)
  {
    if AllTokens(c.communities) {
      FidelityOfWords(c, s, s', forti);
    } else {
      OtherCommunitiesAreLost(c, s, s', forti);
    }
  }
}
