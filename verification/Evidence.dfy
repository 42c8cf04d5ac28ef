/** Line numbers from upload to finding: split, truncate, chunk, rejoin, locate. */
module Evidence {
  import Text

  const TRUNCATION_MARKER := "...[truncated]"
  const EXCERPT: nat := 240

  /** The characters at which a text is split into lines. */
  predicate IsBreak(c: char) {
    c in {'\n', '\r', 11 as char, 12 as char, 28 as char, 29 as char, 30 as char,
          0x85 as char, 0x2028 as char, 0x2029 as char}
  }

  function FirstBreak(s: string): (n: nat)
    ensures n <= |s|
    ensures forall i :: 0 <= i < n ==> !IsBreak(s[i])
    ensures n < |s| ==> IsBreak(s[n])
  {
    if s == "" || IsBreak(s[0]) then 0 else 1 + FirstBreak(s[1..])
  }

  /** splitlines: a break ends a line, and CR LF is one break. */
  function SplitLines(s: string): (lines: seq<string>)
    ensures forall i :: 0 <= i < |lines| ==> IsLine(lines[i])
    decreases |s|
  {
    if s == "" then []
    else
      var n := FirstBreak(s);
      if n == |s| then [s]
      else
        var width := if s[n] == '\r' && n + 1 < |s| && s[n + 1] == '\n' then 2 else 1;
        [s[..n]] + SplitLines(s[n + width..])
  }

  /** A text without line breaks. */
  predicate IsLine(s: string) {
    forall i :: 0 <= i < |s| ==> !IsBreak(s[i])
  }

  function JoinLines(lines: seq<string>): string {
    if lines == [] then ""
    else if |lines| == 1 then lines[0]
    else lines[0] + "\n" + JoinLines(lines[1..])
  }

  function Truncate(line: string, maxLength: nat): string {
    if |line| <= maxLength then line else line[..maxLength] + TRUNCATION_MARKER
  }

  /** The uploaded lines as the chunker keeps them. */
  function KeptLines(raw: string, maxLength: nat): (kept: seq<string>)
    ensures |kept| == |SplitLines(raw)|
    ensures forall i :: 0 <= i < |kept| ==> IsLine(kept[i])
  {
    var lines := SplitLines(raw);
    var kept := seq(|lines|, i requires 0 <= i < |lines| => Truncate(lines[i], maxLength));
    assert IsLine(TRUNCATION_MARKER);
    kept
  }

  /** Slices of at most maxLines, in order. */
  function Slices(lines: seq<string>, maxLines: nat): seq<seq<string>>
    requires maxLines >= 1
    decreases |lines|
  {
    if lines == [] then []
    else if |lines| <= maxLines then [lines]
    else [lines[..maxLines]] + Slices(lines[maxLines..], maxLines)
  }

  function JoinEach(slices: seq<seq<string>>): seq<string> {
    seq(|slices|, i requires 0 <= i < |slices| => JoinLines(slices[i]))
  }

  function ChunkConfig(raw: string, maxLines: nat, maxLength: nat): seq<string>
    requires maxLines >= 1
  {
    JoinEach(Slices(KeptLines(raw, maxLength), maxLines))
  }

  lemma {:induction false} SlicesAreSmall(lines: seq<string>, maxLines: nat)
    requires maxLines >= 1
    ensures forall s :: s in Slices(lines, maxLines) ==> 1 <= |s| <= maxLines
    decreases |lines|
  {
    if |lines| > maxLines { SlicesAreSmall(lines[maxLines..], maxLines); }
  }

  lemma JoinFirst(first: seq<string>, slices: seq<seq<string>>)
    requires slices != []
    ensures JoinLines(JoinEach([first] + slices)) == JoinLines(first) + "\n" + JoinLines(JoinEach(slices))
  {
    assert JoinEach([first] + slices) == [JoinLines(first)] + JoinEach(slices);
  }

  /** Rejoining the slices by newlines restores the text of the lines. */
  lemma {:induction false} SlicesRejoin(lines: seq<string>, maxLines: nat)
    requires maxLines >= 1
    ensures JoinLines(JoinEach(Slices(lines, maxLines))) == JoinLines(lines)
    decreases |lines|
  {
    if |lines| > maxLines {
      var first, rest := lines[..maxLines], lines[maxLines..];
      SlicesRejoin(rest, maxLines);
      JoinFirst(first, Slices(rest, maxLines));
      JoinLinesConcat(first, rest);
      assert first + rest == lines;
    } else if lines != [] {
      assert JoinEach([lines]) == [JoinLines(lines)];
    }
  }

  lemma {:induction false} JoinLinesConcat(first: seq<string>, rest: seq<string>)
    requires first != [] && rest != []
    ensures JoinLines(first + rest) == JoinLines(first) + "\n" + JoinLines(rest)
  {
    if |first| == 1 {
      assert (first + rest)[1..] == rest;
    } else {
      assert (first + rest)[1..] == first[1..] + rest;
      JoinLinesConcat(first[1..], rest);
      assert first[0] + "\n" + (JoinLines(first[1..]) + "\n" + JoinLines(rest))
             == (first[0] + "\n" + JoinLines(first[1..])) + "\n" + JoinLines(rest);
    }
  }

  function WithoutFinalEmpty(lines: seq<string>): seq<string> {
    if lines != [] && lines[|lines| - 1] == "" then lines[..|lines| - 1] else lines
  }

  lemma FinalEmptyLater(lines: seq<string>)
    requires |lines| > 1
    ensures WithoutFinalEmpty(lines) == [lines[0]] + WithoutFinalEmpty(lines[1..])
  {
    assert lines == [lines[0]] + lines[1..];
    assert lines[..|lines| - 1] == [lines[0]] + lines[1..][..|lines| - 2];
  }

  /** Splitting the rejoined text gives the lines back, but for a final empty one. */
  lemma {:induction false} SplitJoined(lines: seq<string>)
    requires forall i :: 0 <= i < |lines| ==> IsLine(lines[i])
    ensures SplitLines(JoinLines(lines)) == WithoutFinalEmpty(lines)
  {
    if |lines| == 1 {
      SplitOne(lines[0]);
    } else if |lines| > 1 {
      SplitJoined(lines[1..]);
      SplitFirst(lines[0], JoinLines(lines[1..]));
      FinalEmptyLater(lines);
    }
  }

  lemma SplitOne(line: string)
    requires IsLine(line)
    ensures SplitLines(line) == if line == "" then [] else [line]
  {
  }

  lemma SplitFirst(line: string, rest: string)
    requires IsLine(line)
    ensures SplitLines(line + "\n" + rest) == [line] + SplitLines(rest)
  {
    var s := line + "\n" + rest;
    assert s[|line|] == '\n';
    assert FirstBreak(s) == |line|;
    assert s[..|line|] == line && s[|line| + 1..] == rest;
  }

  // -------------------------------------------------------------------- locate

  datatype Hit = Hit(line: nat, text: string)

  /** Every matching line, numbered from 1. */
  function AllHits(lines: seq<string>, matches: string -> bool): seq<Hit> {
    if lines == [] then []
    else
      var n := |lines|;
      var last := lines[n - 1];
      AllHits(lines[..n - 1], matches) + if matches(last) then [Hit(n, Shown(last))] else []
  }

  function Shown(line: string): string {
    var stripped := Text.Strip(line);
    if |stripped| <= EXCERPT then stripped else stripped[..EXCERPT]
  }

  function Take(hits: seq<Hit>, n: nat): seq<Hit> {
    if |hits| <= n then hits else hits[..n]
  }

  /** The number of hits asked for; the loop always keeps the first one it finds. */
  function Wanted(limit: int): nat { if limit < 1 then 1 else limit }

  /** The first matching lines; `matches` is the search for a control's patterns. */
  method Locate(matches: string -> bool, source: string, limit: int) returns (hits: seq<Hit>)
    ensures hits == Take(AllHits(SplitLines(source), matches), Wanted(limit))
  {
    hits := [];
    var lines := SplitLines(source);
    for i := 0 to |lines|
      invariant hits == AllHits(lines[..i], matches) && |hits| < Wanted(limit)
    {
      assert lines[..i + 1][..i] == lines[..i];
      if matches(lines[i]) {
        hits := hits + [Hit(i + 1, Shown(lines[i]))];
        if |hits| >= limit {
          HitsExtend(lines, i + 1, matches);
          return;
        }
      }
    }
    assert lines[..|lines|] == lines;
  }

  lemma {:induction false} HitsExtend(lines: seq<string>, n: nat, matches: string -> bool)
    requires n <= |lines|
    ensures AllHits(lines[..n], matches) <= AllHits(lines, matches)
    decreases |lines|
  {
    if n < |lines| {
      var before := lines[..|lines| - 1];
      assert before[..n] == lines[..n];
      HitsExtend(before, n, matches);
    } else {
      assert lines[..n] == lines;
    }
  }

  /** A hit shows the line whose number it carries, and no matching line is missing. */
  lemma {:induction false} HitsAreLines(lines: seq<string>, matches: string -> bool)
    ensures forall h :: h in AllHits(lines, matches) <==>
              1 <= h.line <= |lines| && matches(lines[h.line - 1]) && h.text == Shown(lines[h.line - 1])
    ensures forall i, j :: 0 <= i < j < |AllHits(lines, matches)| ==>
              AllHits(lines, matches)[i].line < AllHits(lines, matches)[j].line
  {
    if lines == [] {
    } else {
      var before := lines[..|lines| - 1];
      HitsAreLines(before, matches);
      assert lines == before + [lines[|lines| - 1]];
      var hits := AllHits(before, matches);
      forall i | 0 <= i < |hits| ensures hits[i].line <= |before| { assert hits[i] in hits; }
    }
  }

  // -------------------------------------------------------------- main results

  /** What the worker hands on: the chunks' texts joined by newlines. */
  function SourceText(raw: string, maxLines: nat, maxLength: nat): string
    requires maxLines >= 1
  {
    JoinLines(ChunkConfig(raw, maxLines, maxLength))
  }

  /** Chunking loses nothing but a final empty line: the n-th line of the rejoined
    * text is the n-th uploaded one. */
  lemma ChunkingKeepsLines(raw: string, maxLines: nat, maxLength: nat)
    requires maxLines >= 1
    ensures var kept := KeptLines(raw, maxLength);
            && (forall s :: s in Slices(kept, maxLines) ==> 1 <= |s| <= maxLines)
            && SourceText(raw, maxLines, maxLength) == JoinLines(kept)
            && SplitLines(SourceText(raw, maxLines, maxLength)) ==
                 if kept != [] && kept[|kept| - 1] == "" then kept[..|kept| - 1] else kept
  {
    SlicesAreSmall(KeptLines(raw, maxLength), maxLines);
    SlicesRejoin(KeptLines(raw, maxLength), maxLines);
    SplitJoined(KeptLines(raw, maxLength));
  }

  lemma LastEmptyHit(lines: seq<string>, matches: string -> bool)
    requires lines != [] && lines[|lines| - 1] == ""
    ensures AllHits(lines[..|lines| - 1], matches) == AllHits(lines, matches) <==> !matches("")
  {
    var before := AllHits(lines[..|lines| - 1], matches);
    assert AllHits(lines, matches) == before + if matches("") then [Hit(|lines|, Shown(""))] else [];
  }

  /** The hits found after chunking are those of the uploaded lines, exactly when
    * no pattern matches a final empty line. */
  lemma HitsSurviveChunking(raw: string, maxLines: nat, maxLength: nat, matches: string -> bool)
    requires maxLines >= 1
    ensures var kept := KeptLines(raw, maxLength);
            AllHits(SplitLines(SourceText(raw, maxLines, maxLength)), matches) == AllHits(kept, matches)
            <==> !(kept != [] && kept[|kept| - 1] == "" && matches(""))
  {
    var kept := KeptLines(raw, maxLength);
    ChunkingKeepsLines(raw, maxLines, maxLength);
    if kept != [] && kept[|kept| - 1] == "" { LastEmptyHit(kept, matches); }
  }

  // ---------------------------------------------------------------- lines as they look

  /** Line feed, vertical tab, form feed, carriage return, the three separators, next line, and
    * the two Unicode separators. */
  predicate Breaks(c: char) {
    var n := c as int;
    10 <= n <= 13 || 28 <= n <= 30 || n == 0x85 || n == 0x2028 || n == 0x2029
  }

  lemma BreaksExactly(c: char)
    ensures IsBreak(c) <==> Breaks(c)
  {
  }

  predicate Unbroken(s: string) { forall i :: 0 <= i < |s| ==> !Breaks(s[i]) }

  /** A text without a break is one line, or none if it is empty. */
  lemma OneLineExactly(s: string)
    requires Unbroken(s)
    ensures SplitLines(s) == if s == "" then [] else [s]
  {
    forall i | 0 <= i < |s| ensures !IsBreak(s[i]) { BreaksExactly(s[i]); }
    SplitOne(s);
  }

  /** A break ends a line, and carriage return with line feed is one break. */
  lemma SplitsAtBreaks(line: string, c: char, rest: string)
    requires Unbroken(line) && Breaks(c)
    ensures SplitLines(line + [c] + rest)
            == [line] + SplitLines(if c as int == 13 && rest != "" && rest[0] as int == 10 then rest[1..] else rest)
  {
    var s := line + [c] + rest;
    forall i | 0 <= i < |line| ensures !IsBreak(s[i]) { BreaksExactly(line[i]); }
    BreaksExactly(c);
    assert s[|line|] == c && FirstBreak(s) == |line|;
    assert s[..|line|] == line && s[|line| + 1..] == rest;
    if rest != "" { assert s[|line| + 1] == rest[0] && s[|line| + 2..] == rest[1..]; }
  }

  /** A line longer than the limit keeps that many characters and says that it was cut. */
  lemma KeptExactly(raw: string, maxLength: nat, i: nat)
    requires i < |SplitLines(raw)|
    ensures var line := SplitLines(raw)[i];
            KeptLines(raw, maxLength)[i] == if |line| <= maxLength then line else line[..maxLength] + "...[truncated]"
  {
  }

  /** The first hits, as many as asked for but never none of some, and all of them if they are fewer. */
  lemma TakenExactly(all: seq<Hit>, limit: int)
    ensures var hits := Take(all, Wanted(limit));
            && hits <= all && (|hits| < limit ==> hits == all)
            && (all != [] ==> hits != []) && (|hits| <= limit || |hits| <= 1)
  {
  }

  /** A hit shows its line without the blanks around it, at most 240 characters. */
  lemma ShownExactly(line: string) returns (a: nat, b: nat)
    ensures Text.IsPadded(line, a, b) && (a < b ==> !Text.IsSpace(line[a]) && !Text.IsSpace(line[b - 1]))
    ensures Shown(line) == if b - a <= 240 then line[a..b] else line[a..a + 240]
  {
    a, b := Text.StripIs(line);
    if b - a > 240 { assert line[a..b][..240] == line[a..a + 240]; }
  }
}
