/**
 The text of the shape lock: `read_lock` and `plan_lock`. What is appended reads back as the rows that were
 there and one more.
 */
module ShapeLock {
  import opened Options
  import opened Texts

  // ---- reading the text

  /** The last word or line so far, one character longer. */
  function Grow(ws: seq<string>, c: char): (r: seq<string>)
    requires ws != []
    ensures r != []
  {
    ws[..|ws| - 1] + [ws[|ws| - 1] + [c]]
  }

  /** The lines of a text, a break between each two; a carriage return and line feed leave an empty one. */
  function Lines(text: string): (ls: seq<string>)
    ensures ls != []
  {
    if text == [] then [[]]
    else
      var ls := Lines(text[..|text| - 1]);
      if IsBreak(text[|text| - 1]) then ls + [[]] else Grow(ls, text[|text| - 1])
  }

  predicate AtGap(line: string) {
    line == [] || IsSpace(line[|line| - 1])
  }

  /** `line.split()`. */
  function Tokens(line: string): (ts: seq<string>)
    ensures !AtGap(line) ==> ts != []
  {
    if line == [] then []
    else
      var before, c := line[..|line| - 1], line[|line| - 1];
      if IsSpace(c) then Tokens(before)
      else if AtGap(before) then Tokens(before) + [[c]]
      else Grow(Tokens(before), c)
  }

  type Rows = map<string, string>

  predicate Comment(tokens: seq<string>) {
    tokens != [] && tokens[0] != [] && tokens[0][0] == '#'
  }

  /** One line: skipped when blank or a comment, a row when it has two words, and otherwise an error. */
  function ReadLine(rows: Rows, line: string): Option<Rows> {
    var ts := Tokens(line);
    if ts == [] || Comment(ts) then Some(rows)
    else if |ts| < 2 then None
    else Some(rows[ts[0] := ts[1]])
  }

  function ReadLines(lines: seq<string>): Option<Rows> {
    if lines == [] then Some(map[])
    else
      var before := ReadLines(lines[..|lines| - 1]);
      if before.None? then None else ReadLine(before.value, lines[|lines| - 1])
  }

  /** `read_lock`; None where the source raises on a line of one word. */
  function ReadLock(text: string): Option<Rows> {
    ReadLines(Lines(text))
  }

  // ---- planning

  datatype Plan = Append(text: string) | Noop | Refuse | Malformed

  const HEADER_1 :=
    "# ingest-v1 shape lock" + ": one row per API vers" + "ion, `<version> <sha25" + "6 of the stable shape>`."

  const HEADER_2 :=
    "# Append-only. Written" + " by scripts/generate_i" + "ngest_openapi.py; a ch" + "anged shape under an"

  const HEADER_3 :=
    "# existing version is " + "refused (bump INGEST_A" + "PI_VERSION, add a docs" + "/api/CHANGELOG.md entry)."

  const HEADER := HEADER_1 + "\n" + HEADER_2 + "\n" + HEADER_3 + "\n"

  function Row(version: string, sha: string): string {
    version + " " + sha + "\n"
  }

  function Separator(text: string): string {
    if text == [] || text[|text| - 1] == '\n' then "" else "\n"
  }

  function PlanLock(text: Option<string>, version: string, sha: string): Plan {
    match text
    case None => Append(HEADER + Row(version, sha))
    case Some(t) =>
      var rows := ReadLock(t);
      if rows.None? then Malformed
      else if version !in rows.value then Append(t + Separator(t) + Row(version, sha))
      else if rows.value[version] == sha then Noop
      else Refuse
  }

  /** A version or hash that reads back as itself: one word, and not a comment's start. */
  predicate Word(s: string) {
    s != [] && (forall i :: 0 <= i < |s| ==> !IsSpace(s[i]))
  }

  predicate Version(s: string) {
    Word(s) && s[0] != '#'
  }

  // ---- reading back what was appended

  lemma CharFacts(c: char)
    ensures IsBreak('\n') && IsSpace(' ') && (IsBreak(c) ==> IsSpace(c))
  {
  }

  lemma LinesStep(s: string, c: char)
    ensures Lines(s + [c]) == if IsBreak(c) then Lines(s) + [[]] else Grow(Lines(s), c)
  {
    hide IsBreak, Grow;
    assert (s + [c])[..|s + [c]| - 1] == s;
  }

  lemma TokensStep(s: string, c: char)
    ensures Tokens(s + [c]) ==
      if IsSpace(c) then Tokens(s) else if AtGap(s) then Tokens(s) + [[c]] else Grow(Tokens(s), c)
  {
    hide IsSpace, Grow, AtGap;
    assert (s + [c])[..|s + [c]| - 1] == s;
  }

  /** The lines before the last one, which is still being written. */
  function Closed(text: string): seq<string> {
    Lines(text)[..|Lines(text)| - 1]
  }

  predicate EndsLine(text: string) {
    text == [] || IsBreak(text[|text| - 1])
  }

  lemma EndsEmpty(text: string)
    requires EndsLine(text)
    ensures Lines(text) == Closed(text) + [[]]
  {
    hide IsBreak;
  }

  lemma GrowBehind(front: seq<string>, ws: seq<string>, c: char)
    requires ws != []
    ensures Grow(front + ws, c) == front + Grow(ws, c)
  {
  }

  lemma LinesStepBehind(text: string, closed: seq<string>, s: string, c: char)
    requires Lines(text) == closed + Lines(s)
    ensures Lines(text + [c]) == closed + Lines(s + [c])
  {
    hide IsBreak, Grow, Lines;
    LinesStep(text, c);
    LinesStep(s, c);
    GrowBehind(closed, Lines(s), c);
  }

  lemma LinesOfEmpty()
    ensures Lines([]) == [[]]
  {
  }

  lemma {:induction false} LinesAfterBreak(a: string, b: string)
    requires EndsLine(a)
    ensures Lines(a + b) == Closed(a) + Lines(b)
    decreases |b|
  {
    hide IsBreak, Lines, EndsLine, Closed;
    if b == [] {
      EndsEmpty(a);
      LinesOfEmpty();
      assert a + b == a;
    } else {
      var c, front := b[|b| - 1], b[..|b| - 1];
      LinesAfterBreak(a, front);
      LinesStepBehind(a + front, Closed(a), front, c);
      assert a + b == (a + front) + [c] && b == front + [c];
    }
  }

  lemma {:induction false} LinesOfWord(s: string)
    requires forall i :: 0 <= i < |s| ==> !IsBreak(s[i])
    ensures Lines(s) == [s]
  {
    hide IsBreak;
    if s != [] {
      LinesOfWord(s[..|s| - 1]);
      assert s == s[..|s| - 1] + [s[|s| - 1]];
    }
  }

  lemma LinesOfLine(s: string)
    requires forall i :: 0 <= i < |s| ==> !IsBreak(s[i])
    ensures Lines(s + "\n") == [s, []]
  {
    CharFacts('\n');
    hide IsBreak, Lines;
    LinesOfWord(s);
    LinesStep(s, '\n');
  }

  lemma {:induction false} TokensOfWord(gap: string, s: string)
    requires AtGap(gap) && Word(s)
    ensures Tokens(gap + s) == Tokens(gap) + [s] && !AtGap(gap + s)
    decreases |s|
  {
    hide IsSpace, Tokens;
    var front, c := s[..|s| - 1], s[|s| - 1];
    assert gap + s == (gap + front) + [c] && s == front + [c];
    TokensStep(gap + front, c);
    if front == [] {
      assert gap + front == gap;
    } else {
      TokensOfWord(gap, front);
    }
  }

  lemma TokensOfTwo(a: string, b: string)
    requires Word(a) && Word(b)
    ensures Tokens(a + " " + b) == [a, b]
  {
    CharFacts(' ');
    assert Tokens("") == [];
    hide IsSpace, Tokens, Word;
    assert "" + a == a;
    TokensOfWord("", a);
    TokensStep(a, ' ');
    TokensOfWord(a + " ", b);
  }

  lemma ReadLinesEmpty(ls: seq<string>)
    ensures ReadLines(ls + [[]]) == ReadLines(ls)
  {
    assert (ls + [[]])[..|ls|] == ls;
    assert Tokens([]) == [];
  }

  lemma ReadLinesRow(ls: seq<string>, version: string, sha: string)
    requires Version(version) && Word(sha) && ReadLines(ls).Some?
    ensures ReadLines(ls + [version + " " + sha]) == Some(ReadLines(ls).value[version := sha])
  {
    var line := version + " " + sha;
    assert (ls + [line])[..|ls|] == ls;
    TokensOfTwo(version, sha);
    hide IsSpace, Tokens;
  }

  lemma RowLines(version: string, sha: string)
    requires Word(version) && Word(sha)
    ensures Lines(Row(version, sha)) == [version + " " + sha, []]
  {
    var line := version + " " + sha;
    forall i | 0 <= i < |line| ensures !IsBreak(line[i]) {
      CharFacts(line[i]);
    }
    LinesOfLine(line);
  }

  /** A row on a line of its own, after text that ends a line, adds exactly that row. */
  lemma RowReadsBack(a: string, version: string, sha: string)
    requires EndsLine(a)
    requires Version(version) && Word(sha) && ReadLock(a).Some?
    ensures ReadLock(a + Row(version, sha)) == Some(ReadLock(a).value[version := sha])
  {
    RowLines(version, sha);
    LinesAfterBreak(a, Row(version, sha));
    EndsEmpty(a);
    hide EndsLine, Version, Word, Row, ReadLines, Lines, Closed;
    ReadLinesEmpty(Closed(a));
    var line := version + " " + sha;
    ReadLinesRow(Closed(a), version, sha);
    ReadLinesEmpty(Closed(a) + [line]);
    assert Closed(a) + [line, []] == (Closed(a) + [line]) + [[]];
  }

  /** A line feed put after a text that does not end a line changes no row. */
  lemma SeparatorReadsBack(t: string)
    ensures ReadLock(t + Separator(t)) == ReadLock(t)
    ensures EndsLine(t + Separator(t))
  {
    CharFacts('\n');
    hide IsBreak, ReadLines;
    if Separator(t) == "" {
      assert t + "" == t;
    } else {
      LinesStep(t, '\n');
      ReadLinesEmpty(Lines(t));
    }
  }

  // ---- the header

  predicate Unbroken(s: string) {
    forall i :: 0 <= i < |s| ==> !IsBreak(s[i])
  }

  lemma UnbrokenJoin(a: string, b: string, c: string, d: string)
    requires Unbroken(a) && Unbroken(b) && Unbroken(c) && Unbroken(d)
    ensures Unbroken(a + b + c + d)
  {
    hide IsBreak;
  }

  lemma Header1()
    ensures Unbroken(HEADER_1) && HEADER_1 != [] && HEADER_1[0] == '#'
  {
    UnbrokenJoin("# ingest-v1 shape lock", ": one row per API vers", "ion, `<version> <sha25",
      "6 of the stable shape>`.");
  }

  lemma Header2()
    ensures Unbroken(HEADER_2) && HEADER_2 != [] && HEADER_2[0] == '#'
  {
    UnbrokenJoin("# Append-only. Written", " by scripts/generate_i", "ngest_openapi.py; a ch", "anged shape under an");
  }

  lemma Header3()
    ensures Unbroken(HEADER_3) && HEADER_3 != [] && HEADER_3[0] == '#'
  {
    UnbrokenJoin("# existing version is ", "refused (bump INGEST_A", "PI_VERSION, add a docs",
      "/api/CHANGELOG.md entry).");
  }

  lemma CommentStarts()
    ensures Tokens("#") == ["#"] && Comment(["#"])
  {
    TokensOfWord("", "#");
    assert "" + "#" == "#";
  }

  lemma {:induction false} CommentTokens(s: string)
    requires s != [] && s[0] == '#'
    ensures Comment(Tokens(s))
  {
    hide IsSpace, AtGap, Tokens;
    if |s| == 1 {
      CommentStarts();
      assert s == "#";
    } else {
      var front, c := s[..|s| - 1], s[|s| - 1];
      CommentTokens(front);
      assert s == front + [c];
      TokensStep(front, c);
    }
  }

  /** A comment on a line of its own changes no row. */
  lemma CommentReadsBack(a: string, line: string)
    requires EndsLine(a) && line != [] && line[0] == '#' && Unbroken(line)
    ensures ReadLock(a + line + "\n") == ReadLock(a) && EndsLine(a + line + "\n")
  {
    CharFacts('\n');
    hide IsBreak, Lines, Closed, Tokens, ReadLines, Comment;
    LinesOfLine(line);
    EndsEmpty(a);
    LinesAfterBreak(a, line + "\n");
    assert a + (line + "\n") == a + line + "\n";
    ReadLinesEmpty(Closed(a));
    ReadLinesEmpty(Closed(a) + [line]);
    CommentLine(Closed(a), line);
    assert Closed(a) + [line, []] == (Closed(a) + [line]) + [[]];
  }

  lemma CommentLine(lines: seq<string>, line: string)
    requires line != [] && line[0] == '#'
    ensures ReadLines(lines + [line]) == ReadLines(lines)
  {
    CommentTokens(line);
    hide Tokens;
    assert (lines + [line])[..|lines|] == lines;
  }

  lemma EmptyReads()
    ensures ReadLock([]) == Some(map[]) && EndsLine([])
  {
    LinesOfEmpty();
    ReadLinesEmpty([]);
  }

  lemma HeaderReadsBack()
    ensures ReadLock(HEADER) == Some(map[]) && EndsLine(HEADER)
  {
    Header1();
    Header2();
    Header3();
    EmptyReads();
    hide IsBreak, ReadLock, HEADER_1, HEADER_2, HEADER_3, Unbroken, EndsLine;
    CommentReadsBack([], HEADER_1);
    assert [] + HEADER_1 + "\n" == HEADER_1 + "\n";
    CommentReadsBack(HEADER_1 + "\n", HEADER_2);
    CommentReadsBack(HEADER_1 + "\n" + HEADER_2 + "\n", HEADER_3);
  }
}
