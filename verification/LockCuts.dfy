/**
 Which rows of a lock file a run that dies in it keeps. The file a sequence of runs makes is the header and a line for
 each row; what a death leaves is the first part of that and of the line that was to follow.
 */
module LockCuts {
  import opened Options
  import opened Texts
  import opened ShapeLock
  import opened LockRuns

  datatype Entry = Entry(version: string, sha: string)

  predicate Proper(rs: seq<Entry>) {
    && (forall i :: 0 <= i < |rs| ==> Version(rs[i].version) && Word(rs[i].sha))
    && forall i, j :: 0 <= i < j < |rs| ==> rs[i].version != rs[j].version
  }

  /** The text of a lock file with these rows. */
  function Book(rs: seq<Entry>): string {
    if rs == [] then HEADER else Book(rs[..|rs| - 1]) + Row(rs[|rs| - 1].version, rs[|rs| - 1].sha)
  }

  function RowsIn(rs: seq<Entry>): (rows: Rows)
    ensures forall v :: v in rows <==> exists i :: 0 <= i < |rs| && rs[i].version == v
  {
    if rs == [] then map[]
    else
      assert rs == rs[..|rs| - 1] + [rs[|rs| - 1]];
      RowsIn(rs[..|rs| - 1])[rs[|rs| - 1].version := rs[|rs| - 1].sha]
  }

  lemma ProperFront(rs: seq<Entry>)
    requires Proper(rs) && rs != []
    ensures Proper(rs[..|rs| - 1]) && rs[|rs| - 1].version !in RowsIn(rs[..|rs| - 1])
  {
    hide Version, Word;
  }

  lemma {:induction false} BookReads(rs: seq<Entry>)
    requires Proper(rs)
    ensures EndsLine(Book(rs)) && ReadLock(Book(rs)) == Some(RowsIn(rs))
  {
    hide ReadLock, HEADER, Version, Word;
    if rs == [] {
      HeaderReadsBack();
    } else {
      ProperFront(rs);
      BookReads(rs[..|rs| - 1]);
      CharFacts('\n');
      RowReadsBack(Book(rs[..|rs| - 1]), rs[|rs| - 1].version, rs[|rs| - 1].sha);
    }
  }

  lemma {:induction false} RowsOfBook(rs: seq<Entry>, j: nat)
    requires Proper(rs) && j < |rs|
    ensures rs[j].version in RowsIn(rs) && RowsIn(rs)[rs[j].version] == rs[j].sha
  {
    hide Version, Word;
    if j < |rs| - 1 {
      ProperFront(rs);
      RowsOfBook(rs[..|rs| - 1], j);
    }
  }

  lemma {:induction false} BookGrows(rs: seq<Entry>, i: nat, j: nat)
    requires i <= j <= |rs|
    ensures Book(rs[..i]) <= Book(rs[..j])
    decreases j
  {
    hide HEADER;
    if i < j {
      BookGrows(rs, i, j - 1);
      assert rs[..j][..j - 1] == rs[..j - 1];
    }
  }

  // ---- the first part of a book

  /** What is read of the first `n` characters of a book. */
  function CutRead(rs: seq<Entry>, n: nat): Option<Rows> {
    if rs == [] then Some(map[])
    else
      var front, last := rs[..|rs| - 1], rs[|rs| - 1];
      if n < |Book(front)| then CutRead(front, n)
      else PartRead(RowsIn(front), last.version, last.sha, n - |Book(front)|)
  }

  /** The part ends in a row of which it holds something, and no more than the version and the space after it. */
  predicate Torn(rs: seq<Entry>, n: nat) {
    rs != [] &&
    var front := rs[..|rs| - 1];
    if n <= |Book(front)| then Torn(front, n) else n - |Book(front)| <= |rs[|rs| - 1].version| + 1
  }

  lemma PartOfComment(a: string, line: string, n: nat)
    requires EndsLine(a) && ReadLock(a) == Some(map[])
    requires line != [] && line[0] == '#' && Unbroken(line) && n <= |line|
    ensures ReadLock(a + line[..n]) == Some(map[])
  {
    var part := line[..n];
    hide EndsLine, ReadLock, IsBreak, Tokens, Comment;
    LastLineReads(a, part);
    NoTokens();
    if n > 0 {
      CommentTokens(part);
    }
  }

  lemma PartOfComments(x: string, y: string, z: string, n: nat)
    requires x != [] && x[0] == '#' && Unbroken(x) && y != [] && y[0] == '#' && Unbroken(y)
    requires z != [] && z[0] == '#' && Unbroken(z) && n < |x + "\n" + y + "\n" + z + "\n"|
    ensures ReadLock((x + "\n" + y + "\n" + z + "\n")[..n]) == Some(map[])
  {
    var all, a, b := x + "\n" + y + "\n" + z + "\n", x + "\n", x + "\n" + y + "\n";
    EmptyReads();
    hide ReadLock, EndsLine, Unbroken;
    CommentReadsBack([], x);
    assert [] + x + "\n" == a;
    CommentReadsBack(a, y);
    if n <= |x| {
      assert all[..n] == [] + x[..n];
      PartOfComment([], x, n);
    } else if n - |a| <= |y| {
      assert all[..n] == a + y[..n - |a|];
      PartOfComment(a, y, n - |a|);
    } else {
      assert all[..n] == b + z[..n - |b|];
      PartOfComment(b, z, n - |b|);
    }
  }

  /** A part of the header holds no row. */
  lemma HeaderCut(n: nat)
    requires n <= |HEADER|
    ensures ReadLock(HEADER[..n]) == Some(map[])
  {
    Header1();
    Header2();
    Header3();
    HeaderReadsBack();
    hide HEADER_1, HEADER_2, HEADER_3, ReadLock, EndsLine, Unbroken;
    if n < |HEADER| {
      PartOfComments(HEADER_1, HEADER_2, HEADER_3, n);
    } else {
      assert HEADER[..n] == HEADER;
    }
  }

  lemma {:induction false} CutReads(rs: seq<Entry>, n: nat)
    requires Proper(rs) && n <= |Book(rs)|
    ensures ReadLock(Book(rs)[..n]) == CutRead(rs, n)
  {
    hide ReadLock, HEADER, PartRead, EndsLine, Version, Word;
    if rs == [] {
      HeaderCut(n);
    } else {
      var front, last := rs[..|rs| - 1], rs[|rs| - 1];
      var start, row := Book(front), Row(last.version, last.sha);
      ProperFront(rs);
      if n < |start| {
        CutReads(front, n);
        assert Book(rs)[..n] == start[..n];
      } else {
        BookReads(front);
        PartOfRowReadsBack(start, last.version, last.sha, n - |start|);
        assert Book(rs)[..n] == start + Part(row, n - |start|);
      }
    }
  }

  lemma {:induction false} CutReadHolds(rs: seq<Entry>, n: nat)
    ensures CutRead(rs, n).Some? ==> forall v :: v in CutRead(rs, n).value ==> v in RowsIn(rs)
  {
    hide Book, RowsIn;
    if rs != [] {
      var front, last := rs[..|rs| - 1], rs[|rs| - 1];
      CutReadHolds(front, n);
      RowsInFront(rs);
    }
  }

  lemma RowsInFront(rs: seq<Entry>)
    requires rs != []
    ensures RowsIn(rs) == RowsIn(rs[..|rs| - 1])[rs[|rs| - 1].version := rs[|rs| - 1].sha]
  {
  }

  /** Row `j` is read, with its own hash. */
  predicate Reads(rows: Option<Rows>, e: Entry) {
    rows.Some? && e.version in rows.value && rows.value[e.version] == e.sha
  }

  lemma LastKept(rows: Rows, e: Entry, m: nat)
    requires e.version !in rows && e.sha != []
    ensures Reads(PartRead(rows, e.version, e.sha, m), e) <==> |Row(e.version, e.sha)| <= m + 1
  {
  }

  lemma OtherKept(rows: Rows, e: Entry, last: Entry, m: nat)
    requires Reads(Some(rows), e) && e.version != last.version
    ensures Reads(PartRead(rows, last.version, last.sha, m), e) <==> !(0 < m <= |last.version| + 1)
  {
  }

  /** Exactly the rows are kept whose line is whole but for its line feed, unless the part is torn. */
  lemma {:induction false} KeptExactly(rs: seq<Entry>, n: nat, j: nat)
    requires Proper(rs) && j < |rs|
    ensures Reads(CutRead(rs, n), rs[j]) <==> !Torn(rs, n) && |Book(rs[..j + 1])| <= n + 1
  {
    var front, last := rs[..|rs| - 1], rs[|rs| - 1];
    ProperFront(rs);
    assert rs[..|rs|] == rs && last.sha != [];
    hide HEADER, Version, Word, Proper, Row, PartRead, Reads, RowsIn;
    if n < |Book(front)| {
      if j < |front| {
        assert front[..j + 1] == rs[..j + 1];
        KeptExactly(front, n, j);
      } else {
        CutReadHolds(front, n);
        NotHeld(CutRead(front, n), RowsIn(front), last);
        assert rs[..j + 1] == rs;
      }
    } else {
      NotTornWhole(front);
      var m := n - |Book(front)|;
      if j < |front| {
        BookGrows(rs, j + 1, |front|);
        RowIsRead(front, j);
        FrontDiffers(rs, j);
        OtherKept(RowsIn(front), rs[j], last, m);
      } else {
        assert rs[..j + 1] == rs;
        LastKept(RowsIn(front), last, m);
      }
    }
  }

  lemma NotHeld(rows: Option<Rows>, all: Rows, e: Entry)
    requires (rows.Some? ==> forall v :: v in rows.value ==> v in all) && e.version !in all
    ensures !Reads(rows, e)
  {
  }

  lemma RowIsRead(rs: seq<Entry>, j: nat)
    requires Proper(rs) && j < |rs|
    ensures Reads(Some(RowsIn(rs)), rs[j])
  {
    RowsOfBook(rs, j);
  }

  lemma FrontDiffers(rs: seq<Entry>, j: nat)
    requires Proper(rs) && j < |rs| - 1
    ensures rs[j].version != rs[|rs| - 1].version
  {
    hide Version, Word;
  }

  lemma {:induction false} NotTornWhole(rs: seq<Entry>)
    ensures !Torn(rs, |Book(rs)|)
  {
    hide HEADER;
  }

  // ---- a run that dies in the lock file

  function RowOf(run: Run): Entry {
    Entry(run.version, run.sha)
  }

  /** A run that does not die in the lock file leaves a book, of the same rows or of its own too. */
  lemma RunKeepsBook(s: State, rs: seq<Entry>, run: Run)
    requires Proper(rs) && s.lock == Some(Book(rs)) && Plain(run) && !run.death.InLock?
    ensures var after := After(s, run).0.lock;
      || after == s.lock
      || (run.version !in RowsIn(rs) && Proper(rs + [RowOf(run)]) && after == Some(Book(rs + [RowOf(run)])))
  {
    AppendsToBook(s, rs, run);
    hide ReadLock, HEADER, Version, Word;
  }

  lemma AppendsToBook(s: State, rs: seq<Entry>, run: Run)
    requires Proper(rs) && s.lock == Some(Book(rs)) && Plain(run)
    ensures Planned(s, run).Append? <==> run.version !in RowsIn(rs)
    ensures Planned(s, run).Append? ==>
      Proper(rs + [RowOf(run)]) && Planned(s, run).text == Book(rs + [RowOf(run)])
  {
    BookReads(rs);
    hide ReadLock, HEADER, Version, Word;
    if run.version !in RowsIn(rs) {
      BookEnds(rs);
      assert (rs + [RowOf(run)])[..|rs|] == rs;
      assert Book(rs) + "" == Book(rs);
    }
  }

  lemma BookEnds(rs: seq<Entry>)
    ensures Separator(Book(rs)) == ""
  {
    if rs == [] {
      assert HEADER[|HEADER| - 1] == '\n';
    }
  }

  /** The first lock file a run makes is a book of one row. */
  lemma FirstBook(s: State, run: Run)
    requires s.lock.None? && Plain(run) && !run.death.InLock?
    ensures var after := After(s, run).0.lock;
      after.None? || (Proper([RowOf(run)]) && after == Some(Book([RowOf(run)])))
  {
    assert [RowOf(run)][..0] == [];
    assert Book([]) == HEADER;
    hide HEADER, Version, Word;
  }

  ghost predicate IsBook(lock: Option<string>) {
    lock.None? || exists rs :: Proper(rs) && lock.value == Book(rs)
  }

  /** Whatever runs there are, as long as none dies in it the lock file is a book. */
  lemma {:induction false} BooksStay(s: State, runs: seq<Run>)
    requires IsBook(s.lock) && forall run :: run in runs ==> Plain(run) && !run.death.InLock?
    ensures IsBook(AfterAll(s, runs).lock)
    decreases |runs|
  {
    hide Proper, Book, Plain, After;
    if runs != [] {
      if s.lock.None? {
        FirstBook(s, runs[0]);
      } else {
        var rs :| Proper(rs) && s.lock.value == Book(rs);
        RunKeepsBook(s, rs, runs[0]);
      }
      BooksStay(After(s, runs[0]).0, runs[1..]);
    }
  }

  /** A lock file that cannot be read stays as it is: every later run raises, and writes neither file. */
  lemma {:induction false} UnreadStays(s: State, runs: seq<Run>)
    requires LockRows(s.lock).None?
    ensures AfterAll(s, runs) == s
    decreases |runs|
  {
    hide ReadLock;
    if runs != [] {
      assert Planned(s, runs[0]).Malformed?;
      UnreadStays(s, runs[1..]);
    }
  }

  /**
   A run that dies with `n` characters in the lock file keeps exactly the rows whose line lies within them but for its
   line feed; and none, for the file cannot be read, where what is left ends in a version or just behind it.
   */
  lemma DeadRunKeepsExactly(s: State, rs: seq<Entry>, run: Run, j: nat)
    requires Proper(rs) && s.lock == Some(Book(rs)) && Plain(run) && run.version !in RowsIn(rs)
    requires run.death.InLock? && j < |rs|
    ensures var n, after := run.death.written, After(s, run).0.lock;
      Reads(LockRows(after), rs[j]) <==> !Torn(rs + [RowOf(run)], n) && |Book(rs[..j + 1])| <= n + 1
  {
    AppendsToBook(s, rs, run);
    AppendsThere(s, run);
    var all := rs + [RowOf(run)];
    assert all[..j + 1] == rs[..j + 1] && all[j] == rs[j];
    hide ReadLock, HEADER, Version, Word, Planned, Reads, Book, Torn, Proper, After, RowsIn;
    PartKeptExactly(all, run.death.written, j);
  }

  lemma PartKeptExactly(rs: seq<Entry>, n: nat, j: nat)
    requires Proper(rs) && j < |rs|
    ensures Reads(ReadLock(Part(Book(rs), n)), rs[j]) <==> !Torn(rs, n) && |Book(rs[..j + 1])| <= n + 1
  {
    hide ReadLock, HEADER, Version, Word, Reads, Book, CutRead, Torn, Proper;
    var m := if n < |Book(rs)| then n else |Book(rs)|;
    CutReads(rs, m);
    KeptExactly(rs, m, j);
    assert Book(rs)[..|Book(rs)|] == Book(rs);
    if n > m {
      PastTheEnd(rs, n);
      NotTornWhole(rs);
      BookGrows(rs, j + 1, |rs|);
      assert rs[..|rs|] == rs;
    }
  }

  lemma AppendsThere(s: State, run: Run)
    requires Planned(s, run).Append? && run.death.InLock?
    ensures After(s, run).0.lock == Some(Part(Planned(s, run).text, run.death.written))
  {
    hide PlanLock;
  }

  lemma PastTheEnd(rs: seq<Entry>, n: nat)
    requires n > |Book(rs)|
    ensures rs != [] ==> !Torn(rs, n)
  {
    hide HEADER;
  }

  /** So every row is kept exactly when the run does not die there, or dies past them all and not in its own version. */
  lemma RowsKeptExactly(s: State, rs: seq<Entry>, run: Run)
    requires Proper(rs) && rs != [] && s.lock == Some(Book(rs)) && Plain(run) && run.version !in RowsIn(rs)
    ensures (forall j :: 0 <= j < |rs| ==> Reads(LockRows(After(s, run).0.lock), rs[j])) <==>
      !run.death.InLock? || (!Torn(rs + [RowOf(run)], run.death.written) && |Book(rs)| <= run.death.written + 1)
  {
    hide ReadLock, HEADER, Version, Word, Torn, Reads, After;
    assert rs[..|rs|] == rs;
    if run.death.InLock? {
      forall j: nat | j < |rs|
        ensures Reads(LockRows(After(s, run).0.lock), rs[j]) <==>
          !Torn(rs + [RowOf(run)], run.death.written) && |Book(rs[..j + 1])| <= run.death.written + 1
        ensures |Book(rs[..j + 1])| <= |Book(rs)|
      {
        DeadRunKeepsExactly(s, rs, run, j);
        BookGrows(rs, j + 1, |rs|);
      }
      assert |Book(rs[..|rs| - 1 + 1])| == |Book(rs)|;
    } else {
      forall j: nat | j < |rs| ensures Reads(LockRows(After(s, run).0.lock), rs[j]) {
        LiveRunKeeps(s, rs, run, j);
      }
    }
  }

  lemma LiveRunKeeps(s: State, rs: seq<Entry>, run: Run, j: nat)
    requires Proper(rs) && s.lock == Some(Book(rs)) && Plain(run) && !run.death.InLock? && j < |rs|
    ensures Reads(LockRows(After(s, run).0.lock), rs[j])
  {
    RunKeepsBook(s, rs, run);
    BookReads(rs);
    RowsOfBook(rs, j);
    var all := rs + [RowOf(run)];
    if Proper(all) {
      BookReads(all);
      RowsOfBook(all, j);
      assert all[j] == rs[j];
    }
    hide ReadLock, HEADER, Version, Word, Proper, After;
  }
}
