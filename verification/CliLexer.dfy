/** Configuration text as lines of words, and the line patterns of the extractor on them. A
  * pattern is a phrase of keywords at the start of a line, in any letter case, with any
  * white space, even line breaks, between them. */
module CliLexer {
  import opened Common
  import Text

  /** How a line begins: at once, after a space or tab, or after another blank. */
  datatype Lead = Flush | Indented | OtherBlank

  datatype Line = Line(lead: Lead, words: seq<string>)

  predicate IsToken(s: string) { s != "" && forall i :: 0 <= i < |s| ==> !Text.IsSpace(s[i]) }

  function TokenLength(s: string): (n: nat)
    ensures n <= |s|
    ensures forall i :: 0 <= i < n ==> !Text.IsSpace(s[i])
    ensures n < |s| ==> Text.IsSpace(s[n])
  {
    if s == "" || Text.IsSpace(s[0]) then 0 else 1 + TokenLength(s[1..])
  }

  /** The maximal runs of non-blank characters. */
  function Words(s: string): (ws: seq<string>)
    ensures forall i :: 0 <= i < |ws| ==> IsToken(ws[i])
    decreases |s|
  {
    if s == "" then []
    else if Text.IsSpace(s[0]) then Words(s[1..])
    else
      var n := TokenLength(s);
      [s[..n]] + Words(s[n..])
  }

  function LeadOf(s: string): Lead {
    if s == "" || !Text.IsSpace(s[0]) then Flush else if s[0] == ' ' || s[0] == '\t' then Indented else OtherBlank
  }

  function NewlineAt(s: string): (n: nat)
    ensures n <= |s| && forall i :: 0 <= i < n ==> s[i] != '\n'
    ensures n < |s| ==> s[n] == '\n'
  {
    if s == "" || s[0] == '\n' then 0 else 1 + NewlineAt(s[1..])
  }

  /** The lines that ^ and $ see: only a newline ends one. */
  function Lex(s: string): (lines: seq<Line>)
    ensures forall i, j :: 0 <= i < |lines| && 0 <= j < |lines[i].words| ==> IsToken(lines[i].words[j])
    decreases |s|
  {
    var n := NewlineAt(s);
    var first := Line(LeadOf(s[..n]), Words(s[..n]));
    if n == |s| then [first] else [first] + Lex(s[n + 1..])
  }

  // ---------------------------------------------------------------- words across lines

  function Flat(lines: seq<Line>): seq<string> {
    if lines == [] then [] else lines[0].words + Flat(lines[1..])
  }

  /** The lines that begin after the first n words. */
  function Rest(lines: seq<Line>, n: int): (rest: seq<Line>)
    ensures |rest| <= |lines|
  {
    if lines == [] || n <= 0 then lines else Rest(lines[1..], n - |lines[0].words|)
  }

  /** The n-th word is the last on its line. */
  predicate EndsLine(lines: seq<Line>, n: int) {
    lines != [] && n > 0 && (n == |lines[0].words| || (n > |lines[0].words| && EndsLine(lines[1..], n - |lines[0].words|)))
  }

  /** The words after the first n that share a line with the next one. */
  function LineTail(lines: seq<Line>, n: int): seq<string> {
    if lines == [] || n < 0 then []
    else if n < |lines[0].words| then lines[0].words[n..]
    else LineTail(lines[1..], n - |lines[0].words|)
  }

  // ------------------------------------------------------------------------- patterns

  predicate Is(w: string, keyword: string) { Text.Lower(w) == keyword }

  predicate IsWordChar(c: char) { 'a' <= c <= 'z' || 'A' <= c <= 'Z' || '0' <= c <= '9' || c == '_' }

  /** The keyword, then a word boundary. */
  predicate Opens(w: string, keyword: string) {
    |keyword| <= |w| && Text.Lower(w[..|keyword|]) == keyword && (|w| == |keyword| || !IsWordChar(w[|keyword|]))
  }

  predicate StartsWith(words: seq<string>, keywords: seq<string>) {
    |keywords| <= |words| && forall i :: 0 <= i < |keywords| ==> Is(words[i], keywords[i])
  }

  /** ^\s*k1\s+...\s+kn\s+(\S+) on the first of these lines. */
  function CaptureAt(lines: seq<Line>, keywords: seq<string>): Option<string> {
    if lines != [] && lines[0].words != [] && StartsWith(Flat(lines), keywords) && |Flat(lines)| > |keywords|
    then Some(Flat(lines)[|keywords|])
    else None
  }

  /** re.findall: the matches from left to right, none overlapping an earlier one. */
  function FindAll(lines: seq<Line>, keywords: seq<string>): seq<string>
    decreases |lines|
  {
    if lines == [] then []
    else
      match CaptureAt(lines, keywords)
      case Some(v) => [v] + FindAll(Rest(lines[1..], |keywords| + 1 - |lines[0].words|), keywords)
      case None => FindAll(lines[1..], keywords)
  }

  /** re.search for the same pattern. */
  function FindFirst(lines: seq<Line>, keywords: seq<string>): Option<string> {
    if lines == [] then None
    else if CaptureAt(lines, keywords).Some? then CaptureAt(lines, keywords)
    else FindFirst(lines[1..], keywords)
  }

  /** ^\s*k1\s+...\s+kn\b on the first of these lines. */
  predicate PhraseAt(lines: seq<Line>, keywords: seq<string>)
    requires keywords != []
  {
    var n := |keywords| - 1;
    && lines != [] && lines[0].words != [] && StartsWith(Flat(lines), keywords[..n])
    && |Flat(lines)| > n && Opens(Flat(lines)[n], keywords[n])
  }

  predicate HasPhrase(lines: seq<Line>, keywords: seq<string>)
    requires keywords != []
  {
    lines != [] && (PhraseAt(lines, keywords) || HasPhrase(lines[1..], keywords))
  }

  /** ^\s*ip\s+ssh\s+version\s+([12])\s*$ : the capture must be the whole rest of its line. */
  function FindLast(lines: seq<Line>, keywords: seq<string>, choices: set<string>): Option<string> {
    if lines == [] then None
    else
      var v := CaptureAt(lines, keywords);
      if v.Some? && v.value in choices && EndsLine(lines, |keywords| + 1) then v
      else FindLast(lines[1..], keywords, choices)
  }

  predicate HoldsWord(w: string, keyword: string) {
    exists i :: 0 <= i <= |w| && (i == 0 || !IsWordChar(w[i - 1])) && Opens(w[i..], keyword)
  }

  /** ^\s*k1\s+...\s+kn\s+.*\bword\b : the word stands further along the line. */
  predicate HasWordAfter(lines: seq<Line>, keywords: seq<string>, word: string) {
    lines != [] && (
      || (lines[0].words != [] && StartsWith(Flat(lines), keywords)
          && exists w :: w in LineTail(lines, |keywords|) && HoldsWord(w, word))
      || HasWordAfter(lines[1..], keywords, word))
  }
}
