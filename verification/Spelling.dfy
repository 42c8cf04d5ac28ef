/** The keywords are lower-case tokens, and the phrases form a prefix-free code. */
module Spelling {
  import opened CliLexer
  import opened MockExtractor
  import Text

  /** Enough of a keyword to tell it from all others. */
  datatype Mark = Mark(length: int, first: int, second: int)

  function MarkOf(k: Keyword): Mark {
    match k
    case Hostname => Mark(8, 104, 111)
    case Ip => Mark(2, 105, 112)
    case Ssh => Mark(3, 115, 115)
    case Version => Mark(7, 118, 101)
    case No => Mark(2, 110, 111)
    case Transport => Mark(9, 116, 114)
    case Input => Mark(5, 105, 110)
    case Telnet => Mark(6, 116, 101)
    case Service => Mark(7, 115, 101)
    case PasswordEncryption => Mark(19, 112, 97)
    case Http => Mark(4, 104, 116)
    case Server => Mark(6, 115, 101)
    case Logging => Mark(7, 108, 111)
    case Host => Mark(4, 104, 111)
    case SnmpServer => Mark(11, 115, 110)
    case Community => Mark(9, 99, 111)
    case Crypto => Mark(6, 99, 114)
    case Isakmp => Mark(6, 105, 115)
    case Policy => Mark(6, 112, 111)
    case Encrypt => Mark(10, 101, 110)
    case Ntp => Mark(3, 110, 116)
    case Authenticate => Mark(12, 97, 117)
    case Banner => Mark(6, 98, 97)
    case Login => Mark(5, 108, 111)
    case Set => Mark(3, 115, 101)
    case System => Mark(6, 115, 121)
    case HostName => Mark(9, 104, 111)
    case DeviceConfig => Mark(12, 100, 101)
    case AdminTelnet => Mark(12, 97, 100)
    case Disable => Mark(7, 100, 105)
    case Enable => Mark(6, 101, 110)
    case AllowAccess => Mark(11, 97, 108)
  }

  predicate IsKeywordChar(c: char) { 'a' <= c <= 'z' || '0' <= c <= '9' || c == '-' }

  /** Lower case, digits and hyphens, as the mark says. */
  predicate IsSpelled(w: string, k: Keyword) {
    && |w| >= 2 && MarkOf(k) == Mark(|w|, w[0] as int, w[1] as int)
    && forall i :: 0 <= i < |w| ==> IsKeywordChar(w[i])
  }

  predicate First(k: Keyword) { k.Hostname? || k.Ip? || k.Ssh? || k.Version? || k.No? || k.Transport? }
  predicate Second(k: Keyword) { k.Input? || k.Telnet? || k.Service? || k.PasswordEncryption? || k.Http? || k.Server? }
  predicate Third(k: Keyword) { k.Logging? || k.Host? || k.SnmpServer? || k.Community? || k.Crypto? || k.Isakmp? }
  predicate Fourth(k: Keyword) { k.Policy? || k.Encrypt? || k.Ntp? || k.Authenticate? || k.Banner? || k.Login? }
  predicate Fifth(k: Keyword) { k.Set? || k.System? || k.HostName? || k.DeviceConfig? || k.AdminTelnet? || k.Disable? }

  lemma SpellIsMarked(k: Keyword)
    ensures IsSpelled(Spell(k), k)
  {
    if First(k) { SpellFirst(k); }
    else if Second(k) { SpellSecond(k); }
    else if Third(k) { SpellThird(k); }
    else if Fourth(k) { SpellFourth(k); }
    else if Fifth(k) { SpellFifth(k); }
    else { SpellSixth(k); }
  }

  lemma SpellFirst(k: Keyword)
    requires First(k)
    ensures IsSpelled(Spell(k), k)
  {
  }

  lemma SpellSecond(k: Keyword)
    requires Second(k)
    ensures IsSpelled(Spell(k), k)
  {
  }

  lemma SpellThird(k: Keyword)
    requires Third(k)
    ensures IsSpelled(Spell(k), k)
  {
  }

  lemma SpellFourth(k: Keyword)
    requires Fourth(k)
    ensures IsSpelled(Spell(k), k)
  {
  }

  lemma SpellFifth(k: Keyword)
    requires Fifth(k)
    ensures IsSpelled(Spell(k), k)
  {
  }

  lemma SpellSixth(k: Keyword)
    requires !First(k) && !Second(k) && !Third(k) && !Fourth(k) && !Fifth(k)
    ensures IsSpelled(Spell(k), k)
  {
  }

  lemma SpellIsToken(k: Keyword)
    ensures IsToken(Spell(k)) && Text.Lower(Spell(k)) == Spell(k)
  {
    SpellIsMarked(k);
  }

  lemma MarksDiffer(j: Keyword, k: Keyword)
    requires MarkOf(j) == MarkOf(k)
    ensures j == k
  {
  }

  lemma SpellDiffers(j: Keyword, k: Keyword)
    requires j != k
    ensures Is(Spell(j), Spell(k)) == false
  {
    SpellIsToken(j);
    SpellIsMarked(j);
    SpellIsMarked(k);
    if MarkOf(j) == MarkOf(k) { MarksDiffer(j, k); }
  }

  lemma SameHead(p: Phrase, q: Phrase) returns (i: nat)
    requires p != q && Keywords(p)[0] == Keywords(q)[0]
    ensures 0 < i < |Keywords(p)| && i < |Keywords(q)| && Keywords(p)[i] != Keywords(q)[i]
    ensures forall j :: 0 <= j < i ==> Keywords(p)[j] == Keywords(q)[j]
  {
    i := if Keywords(p)[1] != Keywords(q)[1] then 1 else 2;
  }

  /** Two different phrases differ at a keyword that both have. */
  lemma PrefixFree(p: Phrase, q: Phrase) returns (i: nat)
    requires p != q
    ensures i < |Keywords(p)| && i < |Keywords(q)| && Keywords(p)[i] != Keywords(q)[i]
    ensures forall j :: 0 <= j < i ==> Keywords(p)[j] == Keywords(q)[j]
  {
    if Keywords(p)[0] == Keywords(q)[0] {
      i := SameHead(p, q);
    } else {
      i := 0;
    }
  }
}
