/** Decimal policy ids, and the IKE policies read back from printed commands. */
module PrintedIke {
  import opened CliLexer
  import opened Common
  import opened MockExtractor
  import opened MockPrinter
  import opened PrintedMatches
  import opened PrintedText

  /** Reading a printed number gives the number. */
  lemma {:induction false} ParseDecimal(n: nat)
    ensures ParseInt(Decimal(n)) == n
  {
    var last := ['0' + (n % 10) as char];
    assert ParseInt(last) == n % 10 by { assert last[..0] == "" && ParseInt("") == 0; }
    if n >= 10 {
      ParseDecimal(n / 10);
      assert (Decimal(n / 10) + last)[..|Decimal(n / 10)|] == Decimal(n / 10);
    }
  }

  lemma DigitsAreToken(w: string)
    requires IsDigits(w)
    ensures IsToken(w)
  {
  }

  lemma EncryptionIsRead(e: Encryption)
    ensures IsToken(EncryptionText(e)) && MapEncryption(EncryptionText(e)) == Some(e)
  {
  }

  function Kept(p: IkePolicy): seq<IkePolicy> { if p.id.Some? then [p] else [] }

  /** The policies that carry an id. */
  function WithIds(ike: seq<IkePolicy>): seq<IkePolicy> { if ike == [] then [] else Kept(ike[0]) + WithIds(ike[1..]) }

  // ------------------------------------------------------------------------- blocks

  predicate FlushFirst(cs: seq<Command>) { cs != [] ==> cs[0].phrase != EncryptionPhrase }

  lemma PolicyIsProper(p: IkePolicy)
    ensures AllProper(PolicyCommands(p)) && FlushFirst(PolicyCommands(p))
  {
    if p.id.Some? { DigitsAreToken(Decimal(p.id.value)); }
    EncryptionIsRead(p.encryption);
  }

  lemma ProperConcat(a: seq<Command>, b: seq<Command>)
    requires AllProper(a) && AllProper(b)
    ensures AllProper(a + b)
  {
  }

  /** The header line with its block gives the policy. */
  lemma ReadPolicy(p: IkePolicy, rest: seq<Command>)
    requires p.id.Some? && AllProper(rest) && FlushFirst(rest)
    ensures IkeAt(LinesOf(PolicyCommands(p) + rest)) == Some(p)
  {
    ReadHeader(p, rest);
    ReadBlock(p.encryption, rest);
    ParseDecimal(p.id.value);
    EncryptionIsRead(p.encryption);
    assert PolicyFrom(Some(Decimal(p.id.value)), true, Some(EncryptionText(p.encryption))) == Some(p);
  }

  lemma {:induction false} ReadHeader(p: IkePolicy, rest: seq<Command>)
    requires p.id.Some? && AllProper(rest)
    ensures var lines := LinesOf(PolicyCommands(p) + rest);
            && CaptureAt(lines, PhraseText(IsakmpPolicy)) == Some(Decimal(p.id.value))
            && lines != [] && lines[0].lead == Flush && EndsLine(lines, 4)
            && Rest(lines, 4) == LinesOf([Command(EncryptionPhrase, Some(EncryptionText(p.encryption)))] + rest)
  {
    var cs := PolicyCommands(p) + rest;
    PolicyIsProper(p);
    ProperConcat(PolicyCommands(p), rest);
    CaptureFirst(cs, IsakmpPolicy);
    FirstWords(cs);
    assert cs[1..] == [Command(EncryptionPhrase, Some(EncryptionText(p.encryption)))] + rest;
    assert Rest(LinesOf(cs), 4) == LinesOf(cs)[1..];
  }

  lemma ReadBlock(e: Encryption, rest: seq<Command>)
    requires AllProper(rest) && FlushFirst(rest)
    ensures var cs := [Command(EncryptionPhrase, Some(EncryptionText(e)))] + rest;
            FindFirst(TakeIndented(DropBlank(LinesOf(cs))), PhraseText(EncryptionPhrase)) == Some(EncryptionText(e))
  {
    var c := Command(EncryptionPhrase, Some(EncryptionText(e)));
    var cs := [c] + rest;
    var lines := LinesOf(cs);
    assert cs[0] == c && cs[1..] == rest;
    assert lines == [LineOf(c)] + LinesOf(rest);
    assert lines[1..] == LinesOf(rest);
    assert DropBlank(lines) == lines;
    assert TakeIndented(LinesOf(rest)) == [] by {
      if rest != [] { assert LinesOf(rest)[0] == LineOf(rest[0]); }
    }
    assert TakeIndented(lines) == [LineOf(c)];
    EncryptionIsRead(e);
    assert [c][1..] == [];
    assert LinesOf([c]) == [LineOf(c)];
    PhraseReads([c], EncryptionPhrase);
    FindFirstIsValue([c], EncryptionPhrase, PhraseText(EncryptionPhrase));
    assert Values([c], EncryptionPhrase) == [EncryptionText(e)];
  }

  lemma NoPolicyHere(cs: seq<Command>)
    requires cs != [] && AllProper(cs) && cs[0].phrase != IsakmpPolicy
    ensures IkeAt(LinesOf(cs)) == None
  {
    CaptureFirst(cs, IsakmpPolicy);
  }

  // ------------------------------------------------------------------- whole documents

  lemma GatherStep(cs: seq<Command>)
    requires cs != []
    ensures IkePolicies(LinesOf(cs)) ==
            (if IkeAt(LinesOf(cs)).Some? then [IkeAt(LinesOf(cs)).value] else []) + IkePolicies(LinesOf(cs[1..]))
  {
    assert LinesOf(cs)[1..] == LinesOf(cs[1..]);
  }

  /** Commands that print no policy contribute none. */
  lemma {:induction false} SkipCommands(a: seq<Command>, b: seq<Command>)
    requires AllProper(a) && AllProper(b) && !Mentions(a, IsakmpPolicy)
    ensures IkePolicies(LinesOf(a + b)) == IkePolicies(LinesOf(b))
  {
    if a == [] {
      assert a + b == b;
    } else {
      ProperConcat(a, b);
      assert (a + b)[1..] == a[1..] + b;
      assert (a + b)[0].phrase != IsakmpPolicy;
      NoPolicyHere(a + b);
      GatherStep(a + b);
      MentionsTail(a, IsakmpPolicy);
      TailProper(a);
      SkipCommands(a[1..], b);
    }
  }

  function EncryptionLine(p: IkePolicy): Command { Command(EncryptionPhrase, Some(EncryptionText(p.encryption))) }

  lemma SkipEncryption(p: IkePolicy, rest: seq<Command>)
    requires AllProper(rest)
    ensures IkePolicies(LinesOf([EncryptionLine(p)] + rest)) == IkePolicies(LinesOf(rest))
  {
    EncryptionIsRead(p.encryption);
    assert AllProper([EncryptionLine(p)]);
    SkipCommands([EncryptionLine(p)], rest);
  }

  lemma GatherHit(cs: seq<Command>, p: IkePolicy, tail: seq<Command>)
    requires cs != [] && cs[1..] == tail && IkeAt(LinesOf(cs)) == Some(p)
    ensures IkePolicies(LinesOf(cs)) == [p] + IkePolicies(LinesOf(tail))
  {
    GatherStep(cs);
  }

  lemma OnePolicy(p: IkePolicy, rest: seq<Command>)
    requires AllProper(rest) && FlushFirst(rest)
    ensures IkePolicies(LinesOf(PolicyCommands(p) + rest)) == Kept(p) + IkePolicies(LinesOf(rest))
  {
    if p.id.Some? {
      var cs, tail := PolicyCommands(p) + rest, [EncryptionLine(p)] + rest;
      assert cs[1..] == tail;
      ReadPolicy(p, rest);
      GatherHit(cs, p, tail);
      SkipEncryption(p, rest);
    } else {
      assert PolicyCommands(p) + rest == rest;
    }
  }

  lemma {:induction false} PoliciesAreProper(ike: seq<IkePolicy>)
    ensures AllProper(Policies(ike)) && FlushFirst(Policies(ike))
  {
    if ike == [] {
    } else {
      PoliciesAreProper(ike[1..]);
      PolicyIsProper(ike[0]);
      ProperConcat(PolicyCommands(ike[0]), Policies(ike[1..]));
    }
  }

  lemma NoPolicies(rest: seq<Command>)
    requires AllProper(rest) && !Mentions(rest, IsakmpPolicy)
    ensures IkePolicies(LinesOf(rest)) == []
  {
    SkipCommands(rest, []);
    assert rest + [] == rest;
    assert IkePolicies(LinesOf([])) == [];
  }

  lemma FollowedBy(ike: seq<IkePolicy>, rest: seq<Command>)
    requires AllProper(rest) && FlushFirst(rest)
    ensures AllProper(Policies(ike) + rest) && FlushFirst(Policies(ike) + rest)
  {
    PoliciesAreProper(ike);
    ProperConcat(Policies(ike), rest);
  }

  /** The printed policies are read back in order, but for those without an id. */
  lemma {:induction false} PoliciesAreRead(ike: seq<IkePolicy>, rest: seq<Command>)
    requires AllProper(rest) && FlushFirst(rest) && !Mentions(rest, IsakmpPolicy)
    ensures IkePolicies(LinesOf(Policies(ike) + rest)) == WithIds(ike)
  {
    if ike == [] {
      assert Policies(ike) + rest == rest;
      NoPolicies(rest);
    } else {
      var tail := Policies(ike[1..]) + rest;
      PoliciesAreRead(ike[1..], rest);
      FollowedBy(ike[1..], rest);
      OnePolicy(ike[0], tail);
      Associates(PolicyCommands(ike[0]), Policies(ike[1..]), rest);
    }
  }
}
