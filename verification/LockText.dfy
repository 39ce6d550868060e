/** What a lock file says, line by line and word by word: `read_lock` against the text itself. */
module LockText {
  import opened Options
  import opened Texts
  import opened ShapeLock

  // ---- lines

  /** A break ends a line, and what comes behind it is read by itself. */
  lemma LinesExactly(s: string, c: char, rest: string)
    requires Unbroken(s)
    ensures Lines(s) == [s] && (IsBreak(c) ==> Lines(s + [c] + rest) == [s] + Lines(rest))
  {
    LinesOfWord(s);
    if IsBreak(c) {
      LinesStep(s, c);
      hide IsBreak, Lines;
      LinesAfterBreak(s + [c], rest);
      assert [s, []][..1] == [s];
    }
  }

  // ---- words

  lemma NoTokens()
    ensures Tokens([]) == []
  {
  }

  lemma GapBehind(a: string, front: string)
    requires front != []
    ensures AtGap(a + front) == AtGap(front)
  {
  }

  lemma WordsOfText(s: string)
    ensures !AtGap(s) ==> Tokens(s) != []
  {
  }

  /** Where a space stands, the words before it and behind it are read apart. */
  lemma {:induction false} TokensJoin(a: string, rest: string)
    requires rest == [] || IsSpace(rest[0])
    ensures Tokens(a + rest) == Tokens(a) + Tokens(rest)
    decreases |rest|
  {
    NoTokens();
    hide IsSpace, Tokens, AtGap, Grow;
    if rest == [] {
      assert a + rest == a;
    } else {
      var front, c := rest[..|rest| - 1], rest[|rest| - 1];
      assert rest == front + [c] && a + rest == (a + front) + [c];
      TokensStep(a + front, c);
      TokensStep(front, c);
      TokensJoin(a, front);
      if front == [] {
        assert a + front == a && rest == [c];
      } else {
        GapBehind(a, front);
        WordsOfText(front);
        if !AtGap(front) {
          GrowBehind(Tokens(a), Tokens(front), c);
        }
      }
    }
  }

  lemma {:induction false} NoWords(gap: string)
    requires AllSpace(gap)
    ensures Tokens(gap) == [] && AtGap(gap)
  {
    NoTokens();
    hide IsSpace, Tokens;
    if gap != [] {
      var front, c := gap[..|gap| - 1], gap[|gap| - 1];
      NoWords(front);
      assert gap == front + [c];
      TokensStep(front, c);
    }
  }

  /** A word behind a gap is the first of its line. */
  lemma FirstWord(lead: string, a: string, rest: string)
    requires AllSpace(lead) && Word(a) && (rest == [] || IsSpace(rest[0]))
    ensures Tokens(lead + a + rest) == [a] + Tokens(rest)
  {
    NoWords(lead);
    hide IsSpace, Tokens, Word, AllSpace;
    TokensOfWord(lead, a);
    TokensJoin(lead + a, rest);
  }

  // ---- what a line can be

  ghost predicate CommentAt(line: string, lead: string, rest: string) {
    AllSpace(lead) && line == lead + "#" + rest
  }

  /** Space at most, and then a number sign. */
  ghost predicate IsComment(line: string) {
    exists lead, rest :: CommentAt(line, lead, rest)
  }

  ghost predicate LoneAt(line: string, lead: string, a: string, tail: string) {
    AllSpace(lead) && Version(a) && AllSpace(tail) && line == lead + a + tail
  }

  /** One word, and no comment. */
  ghost predicate IsLone(line: string) {
    exists lead, a, tail :: LoneAt(line, lead, a, tail)
  }

  ghost predicate RowAt(line: string, v: string, sha: string, lead: string, gap: string, rest: string) {
    && AllSpace(lead) && Version(v) && gap != [] && AllSpace(gap) && Word(sha)
    && (rest == [] || IsSpace(rest[0])) && line == lead + v + gap + sha + rest
  }

  /** A version and a hash, and then whatever comes behind a space. */
  ghost predicate IsRow(line: string, v: string, sha: string) {
    exists lead, gap, rest :: RowAt(line, v, sha, lead, gap, rest)
  }

  lemma CommentWords(line: string)
    requires IsComment(line)
    ensures Comment(Tokens(line))
  {
    var lead, rest :| CommentAt(line, lead, rest);
    SharpIsNoSpace();
    var word, tail := TakeWord("#" + rest);
    assert line == lead + word + tail by {
      assert lead + "#" + rest == lead + ("#" + rest) && lead + (word + tail) == lead + word + tail;
    }
    hide Tokens, AllSpace, IsSpace;
    FirstWord(lead, word, tail);
  }

  lemma SharpIsNoSpace()
    ensures !IsSpace('#')
  {
  }

  lemma LoneWord(line: string)
    requires IsLone(line)
    ensures |Tokens(line)| == 1 && !Comment(Tokens(line))
  {
    var lead, a, tail :| LoneAt(line, lead, a, tail);
    NoWords(tail);
    hide Tokens, IsSpace;
    FirstWord(lead, a, tail);
  }

  lemma RowWords(line: string, v: string, sha: string)
    requires IsRow(line, v, sha)
    ensures |Tokens(line)| > 1 && Tokens(line)[0] == v && Tokens(line)[1] == sha && !Comment(Tokens(line))
  {
    var lead, gap, rest :| RowAt(line, v, sha, lead, gap, rest);
    var behind := gap + sha + rest;
    assert line == lead + v + behind;
    hide Tokens, IsSpace;
    FirstWord(lead, v, behind);
    FirstWord(gap, sha, rest);
  }

  // ---- every line is one of these

  lemma {:induction false} TakeWord(s: string) returns (word: string, rest: string)
    requires s != [] && !IsSpace(s[0])
    ensures Word(word) && word[0] == s[0] && s == word + rest && (rest == [] || IsSpace(rest[0]))
  {
    hide IsSpace;
    if |s| == 1 || IsSpace(s[1]) {
      word, rest := [s[0]], s[1..];
    } else {
      var more, behind := TakeWord(s[1..]);
      word, rest := [s[0]] + more, behind;
    }
  }

  lemma LineIs(line: string)
    ensures AllSpace(line) || IsComment(line) || IsLone(line) || exists v, sha :: IsRow(line, v, sha)
  {
    hide IsSpace, StripLeft;
    var lead := StripLeftSplits(line);
    var text := StripLeft(line);
    if text == [] {
      assert line == lead;
    } else if text[0] == '#' {
      assert CommentAt(line, lead, text[1..]);
    } else {
      var v, tail := TakeWord(text);
      if AllSpace(tail) {
        assert LoneAt(line, lead, v, tail);
      } else {
        var gap := StripLeftSplits(tail);
        var sha, rest := TakeWord(StripLeft(tail));
        assert RowAt(line, v, sha, lead, gap, rest);
        assert IsRow(line, v, sha);
      }
    }
  }

  /** Every line is one of these: blank, a comment, one word, or one row; and is read as that. */
  lemma ReadLineExactly(rows: Rows, line: string)
    ensures AllSpace(line) || IsComment(line) || IsLone(line) || exists v, sha :: IsRow(line, v, sha)
    ensures AllSpace(line) || IsComment(line) ==> ReadLine(rows, line) == Some(rows)
    ensures IsLone(line) <==> ReadLine(rows, line) == None
    ensures forall v, sha :: IsRow(line, v, sha) ==> ReadLine(rows, line) == Some(rows[v := sha])
    ensures forall v, sha, w, h :: IsRow(line, v, sha) && IsRow(line, w, h) ==> v == w && sha == h
    ensures forall v, sha :: IsRow(line, v, sha) ==> !AllSpace(line) && !IsComment(line)
  {
    LineIs(line);
    if AllSpace(line) { NoWords(line); }
    if IsComment(line) { CommentWords(line); }
    if IsLone(line) { LoneWord(line); }
    forall v, sha | IsRow(line, v, sha)
      ensures |Tokens(line)| > 1 && Tokens(line)[0] == v && Tokens(line)[1] == sha && !Comment(Tokens(line))
    {
      RowWords(line, v, sha);
    }
    hide Tokens, Comment, AllSpace, IsComment, IsLone, IsRow;
  }

  // ---- the whole text

  /** The line that counts for a version: the last row of it. */
  ghost predicate LastRow(lines: seq<string>, i: nat, v: string, sha: string) {
    && i < |lines| && IsRow(lines[i], v, sha)
    && forall j: nat, h :: i < j < |lines| ==> !IsRow(lines[j], v, h)
  }

  /** The version is locked at this hash. */
  ghost predicate Locked(lines: seq<string>, v: string, sha: string) {
    exists i: nat :: LastRow(lines, i, v, sha)
  }

  /** The lines are read unless one is a lone word; and a version's hash is that of its last row. */
  lemma {:induction false} ReadLinesExactly(lines: seq<string>, v: string, sha: string)
    ensures ReadLines(lines).Some? <==> forall i :: 0 <= i < |lines| ==> !IsLone(lines[i])
    ensures ReadLines(lines).Some? ==>
      ((v in ReadLines(lines).value && ReadLines(lines).value[v] == sha) <==> Locked(lines, v, sha))
  {
    hide ReadLine, IsLone, IsRow;
    if lines != [] {
      var front, line := lines[..|lines| - 1], lines[|lines| - 1];
      ReadLinesExactly(front, v, sha);
      assert forall i :: 0 <= i < |front| ==> lines[i] == front[i];
      if ReadLines(front).Some? {
        LastCounts(ReadLines(front).value, front, line, v, sha);
        assert lines == front + [line];
      }
    }
  }

  lemma LastCounts(rows: Rows, front: seq<string>, line: string, v: string, sha: string)
    requires (v in rows && rows[v] == sha) <==> Locked(front, v, sha)
    ensures IsLone(line) <==> ReadLine(rows, line) == None
    ensures var now := ReadLine(rows, line);
      now.Some? ==>
        ((v in now.value && now.value[v] == sha) <==> Locked(front + [line], v, sha))
  {
    ReadLineExactly(rows, line);
    hide ReadLine, IsLone, IsRow, AllSpace, IsComment;
    var lines := front + [line];
    if ReadLine(rows, line).Some? {
      if h :| IsRow(line, v, h) {
        assert lines[|front|] == line;
        assert forall i: nat :: LastRow(lines, i, v, sha) ==> i == |front|;
        assert IsRow(line, v, sha) ==> LastRow(lines, |front|, v, sha);
      } else {
        assert forall i: nat :: i < |front| ==> lines[i] == front[i];
        forall i: nat ensures LastRow(front, i, v, sha) <==> LastRow(lines, i, v, sha) {
          assert i < |lines| && IsRow(lines[i], v, sha) ==> i < |front|;
          if LastRow(lines, i, v, sha) {
            assert forall j: nat, h :: i < j < |front| ==> lines[j] == front[j] && !IsRow(front[j], v, h);
          }
        }
      }
    }
  }

  /** The text a row is appended to, ended by a line feed unless it is empty or ends with one. */
  function Ended(t: string): string {
    if |t| == 0 || t[|t| - 1] == '\n' then t else t + ['\n']
  }

  ghost predicate Lone(lines: seq<string>) {
    exists i :: 0 <= i < |lines| && IsLone(lines[i])
  }

  ghost predicate RowOf(line: string, v: string) {
    exists h :: IsRow(line, v, h)
  }

  /** Has some line a row of the version? */
  ghost predicate Lists(lines: seq<string>, v: string) {
    exists i :: 0 <= i < |lines| && RowOf(lines[i], v)
  }

  /** What is planned, by what the lines of the lock file are. */
  lemma PlanExactly(t: string, v: string, sha: string)
    ensures var plan, lines := PlanLock(Some(t), v, sha), Lines(t);
      && (plan == Malformed <==> Lone(lines))
      && (plan.Append? <==> !Lone(lines) && !Lists(lines, v))
      && (plan.Append? ==> plan.text == Ended(t) + v + [' '] + sha + ['\n'])
      && (plan == Noop <==> !Lone(lines) && Locked(lines, v, sha))
      && (plan == Refuse <==> !Lone(lines) && Lists(lines, v) && !Locked(lines, v, sha))
  {
    var lines := Lines(t);
    ReadLinesExactly(lines, v, sha);
    ListedIsLocked(lines, v);
    hide Lines;
    assert t + Separator(t) == Ended(t);
    assert Ended(t) + Row(v, sha) == Ended(t) + v + [' '] + sha + ['\n'];
    hide ReadLines, IsLone, LastRow, Lists, RowOf, Ended, Separator, Row;
  }

  /** A version is among the rows read exactly when some line has a row of it. */
  lemma ListedIsLocked(lines: seq<string>, v: string)
    ensures ReadLines(lines).Some? ==> (v in ReadLines(lines).value <==> Lists(lines, v))
  {
    if ReadLines(lines).Some? {
      if v in ReadLines(lines).value {
        var h := ReadLines(lines).value[v];
        ReadLinesExactly(lines, v, h);
        var i: nat :| LastRow(lines, i, v, h);
        hide IsRow, ReadLines;
        assert RowOf(lines[i], v);
      }
      if Lists(lines, v) {
        assert lines[..|lines|] == lines;
        var i, h := LastOf(lines, v, |lines|);
        ReadLinesExactly(lines, v, h);
        hide LastRow, ReadLines;
      }
    }
  }

  /** Of a version that has a row among the first `n` lines, and none behind them, one row is the last. */
  lemma {:induction false} LastOf(lines: seq<string>, v: string, n: nat) returns (i: nat, h: string)
    requires n <= |lines| && Lists(lines[..n], v)
    requires forall j: nat :: n <= j < |lines| ==> !RowOf(lines[j], v)
    ensures LastRow(lines, i, v, h)
    decreases n
  {
    hide IsRow;
    if RowOf(lines[n - 1], v) {
      h :| IsRow(lines[n - 1], v, h);
      i := n - 1;
      forall j: nat, k | i < j < |lines| ensures !IsRow(lines[j], v, k) {
        assert !RowOf(lines[j], v);
      }
    } else {
      var j :| 0 <= j < n && RowOf(lines[..n][j], v);
      assert lines[..n - 1][j] == lines[..n][j];
      i, h := LastOf(lines, v, n - 1);
    }
  }
}
