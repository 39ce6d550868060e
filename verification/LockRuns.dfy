/**
 The generator's `write` and `check` over the published document and its lock file, and what every
 sequence of runs keeps. A run may die inside either file write, leaving the first part of the text.
 */
module LockRuns {
  import opened Options
  import opened Json
  import opened Components
  import opened Annotations
  import opened ShapeLock
  import opened Texts

  datatype State = State(doc: Option<string>, lock: Option<string>)

  /** How far a run gets: to its end, or through the first characters of one file. */
  datatype Death = Never | InDocument(written: nat) | InLock(written: nat)

  /** One run of the generator: what it built, and how far it got. */
  datatype Run = Run(text: string, version: string, sha: string, death: Death)

  datatype Outcome = Wrote | Refused | Raised | Died

  function Part(text: string, n: nat): string {
    if n < |text| then text[..n] else text
  }

  function Planned(s: State, run: Run): Plan {
    PlanLock(s.lock, run.version, run.sha)
  }

  /** What one run leaves behind. */
  function After(s: State, run: Run): (State, Outcome) {
    var plan := Planned(s, run);
    if plan.Malformed? then (s, Raised)
    else if plan.Refuse? then (s, Refused)
    else if run.death.InDocument? then (s.(doc := Some(Part(run.text, run.death.written))), Died)
    else if plan.Append? && run.death.InLock? then
      (State(Some(run.text), Some(Part(plan.text, run.death.written))), Died)
    else
      (State(Some(run.text), if plan.Append? then Some(plan.text) else s.lock), Wrote)
  }

  datatype Verdict = Passes | Stale | CheckRaised

  /** `check`, which writes nothing. */
  function Checked(s: State, text: string, version: string, sha: string): Verdict {
    var rows := if s.lock.Some? then ReadLock(s.lock.value) else Some(map[]);
    if rows.None? then CheckRaised
    else if s.doc == Some(text) && version in rows.value && rows.value[version] == sha then Passes
    else Stale
  }

  /** The two files, and the runs that write them. */
  class Files {
    var doc: Option<string>
    var lock: Option<string>

    function Now(): State
      reads this
    {
      State(doc, lock)
    }

    constructor ()
      ensures Now() == State(None, None)
    {
      doc := None;
      lock := None;
    }

    /** `write`: refuse before either file is touched, then the document, then the lock. */
    method Write(run: Run) returns (outcome: Outcome)
      modifies this
      ensures (Now(), outcome) == After(old(Now()), run)
    {
      var plan := PlanLock(lock, run.version, run.sha);
      if plan.Malformed? {
        return Raised;
      }
      if plan.Refuse? {
        return Refused;
      }
      if run.death.InDocument? {
        doc := Some(Part(run.text, run.death.written));
        return Died;
      }
      doc := Some(run.text);
      if plan.Append? {
        if run.death.InLock? {
          lock := Some(Part(plan.text, run.death.written));
          return Died;
        }
        lock := Some(plan.text);
      }
      outcome := Wrote;
    }

    method Check(text: string, version: string, sha: string) returns (verdict: Verdict)
      ensures verdict == Checked(Now(), text, version, sha)
    {
      var rows: Rows := map[];
      if lock.Some? {
        var got := ReadLock(lock.value);
        if got.None? {
          return CheckRaised;
        }
        rows := got.value;
      }
      verdict := Passes;
      if doc != Some(text) {
        verdict := Stale;
      }
      if version !in rows || rows[version] != sha {
        verdict := Stale;
      }
    }
  }

  // ---- one run

  /** The rows of the lock file; a file not there yet has none. */
  function LockRows(lock: Option<string>): Option<Rows> {
    if lock.Some? then ReadLock(lock.value) else Some(map[])
  }

  /** The version and hash are words, as a version number and a hexadecimal digest are. */
  predicate Plain(run: Run) {
    Version(run.version) && Word(run.sha)
  }

  /** Did the run die with less in the lock file than was there? */
  predicate CutsLock(s: State, run: Run) {
    var plan := Planned(s, run);
    plan.Append? && run.death.InLock? && s.lock.Some? && run.death.written < |s.lock.value|
  }

  predicate Extends(a: Option<string>, b: Option<string>) {
    a.None? || (b.Some? && a.value <= b.value)
  }

  /** An appended text is the old text and more, and reads as the old rows and the new one. */
  lemma AppendAddsOneRow(s: State, run: Run)
    requires Plain(run) && Planned(s, run).Append?
    ensures var text := Planned(s, run).text;
      Extends(s.lock, Some(text)) && LockRows(s.lock).Some? && run.version !in LockRows(s.lock).value
      && ReadLock(text) == Some(LockRows(s.lock).value[run.version := run.sha])
  {
    hide ReadLock, Row, HEADER, Separator, Version, Word;
    if s.lock.None? {
      HeaderReadsBack();
      RowReadsBack(HEADER, run.version, run.sha);
    } else {
      var t := s.lock.value;
      SeparatorReadsBack(t);
      RowReadsBack(t + Separator(t), run.version, run.sha);
    }
  }

  /** One run extends the lock file unless, and only unless, it dies with less written than was there. */
  lemma LockOnlyGrows(s: State, run: Run)
    requires Plain(run)
    ensures Extends(s.lock, After(s, run).0.lock) <==> !CutsLock(s, run)
  {
    if Planned(s, run).Append? {
      AppendAddsOneRow(s, run);
    }
    hide PlanLock;
  }

  // ---- a row cut short

  /** The first part of a row's line: part of the version, or the version and part of the hash. */
  lemma PartOfRowTokens(version: string, sha: string, n: nat)
    requires Version(version) && Word(sha) && n <= |version + " " + sha|
    ensures Tokens((version + " " + sha)[..n]) ==
      if n == 0 then []
      else if n <= |version| + 1 then [Part(version, n)]
      else [version, sha[..n - |version| - 1]]
  {
    var line := version + " " + sha;
    CharFacts(' ');
    NoTokens();
    hide Tokens, IsSpace;
    if n == 0 {
      assert line[..n] == [];
    } else if n <= |version| {
      assert line[..n] == version[..n] && "" + version[..n] == version[..n] && Part(version, n) == version[..n];
      TokensOfWord("", version[..n]);
    } else if n == |version| + 1 {
      assert line[..n] == version + " " && "" + version == version;
      TokensOfWord("", version);
      TokensStep(version, ' ');
    } else {
      var part := sha[..n - |version| - 1];
      assert line[..n] == version + " " + part;
      TokensOfTwo(version, part);
    }
  }

  lemma NoTokens()
    ensures Tokens([]) == []
  {
  }

  lemma PartOfRowUnbroken(version: string, sha: string, n: nat)
    requires Version(version) && Word(sha) && n <= |version + " " + sha|
    ensures Unbroken((version + " " + sha)[..n])
  {
    var part := (version + " " + sha)[..n];
    forall i | 0 <= i < |part| ensures !IsBreak(part[i]) {
      CharFacts(part[i]);
    }
  }

  /** What is read where the first `n` characters of a row follow these rows; None where the source raises. */
  function PartRead(rows: Rows, version: string, sha: string, n: nat): Option<Rows> {
    if n == 0 then Some(rows)
    else if n <= |version| + 1 then None
    else Some(rows[version := Part(sha, n - |version| - 1)])
  }

  /**
   A row of which only a part was written: nothing of it leaves the rows as they were; no more than its version makes
   the whole file unreadable; and with part of its hash it is a row of that part.
   */
  lemma PartOfRowReadsBack(a: string, version: string, sha: string, n: nat)
    requires EndsLine(a) && ReadLock(a).Some?
    requires Version(version) && Word(sha)
    ensures ReadLock(a + Part(Row(version, sha), n)) == PartRead(ReadLock(a).value, version, sha, n)
  {
    var line := version + " " + sha;
    if n > |line| {
      hide EndsLine, Version, Word;
      RowReadsBack(a, version, sha);
    } else {
      var part := line[..n];
      assert Part(Row(version, sha), n) == part;
      PartOfRowUnbroken(version, sha, n);
      ReadPart(ReadLock(a).value, version, sha, n);
      hide EndsLine, Version, Word, ReadLine, ReadLock, PartRead;
      LastLineReads(a, part);
    }
  }

  lemma ReadPart(rows: Rows, version: string, sha: string, n: nat)
    requires Version(version) && Word(sha) && n <= |version + " " + sha|
    ensures ReadLine(rows, (version + " " + sha)[..n]) == PartRead(rows, version, sha, n)
  {
    PartOfRowTokens(version, sha, n);
    hide Tokens, Word;
    if 0 < n <= |version| + 1 {
      NoComment(version, n);
    } else if n > 0 {
      NoComment(version, |version|);
      PartOfHash(version, sha, n);
    }
  }

  lemma NoComment(version: string, n: nat)
    requires Version(version) && n > 0
    ensures Part(version, n) != [] && !Comment([Part(version, n)]) && Part(version, |version|) == version
  {
  }

  lemma PartOfHash(version: string, sha: string, n: nat)
    requires |version| + 1 < n <= |version + " " + sha|
    ensures sha[..n - |version| - 1] == Part(sha, n - |version| - 1)
  {
    assert sha[..|sha|] == sha;
  }

  /** An unbroken piece after text that ends a line is read as a line. */
  lemma LastLineReads(a: string, part: string)
    requires EndsLine(a) && ReadLock(a).Some? && Unbroken(part)
    ensures ReadLock(a + part) == ReadLine(ReadLock(a).value, part)
  {
    hide EndsLine, IsBreak, Lines, Closed, ReadLine;
    LinesOfWord(part);
    LinesAfterBreak(a, part);
    EndsEmpty(a);
    ReadLinesEmpty(Closed(a));
    assert (Closed(a) + [part])[..|Closed(a)|] == Closed(a);
  }

  // ---- every sequence of runs

  /** Whatever can be read of both files, the later one holds every row of the earlier. */
  predicate Keeps(a: Option<string>, b: Option<string>) {
    LockRows(a).Some? && LockRows(b).Some? ==>
      forall v :: v in LockRows(a).value ==> v in LockRows(b).value && LockRows(b).value[v] == LockRows(a).value[v]
  }

  lemma PartOfAppend(t: string, run: Run, n: nat)
    requires Plain(run) && PlanLock(Some(t), run.version, run.sha).Append? && |t| <= n
    ensures Keeps(Some(t), Some(Part(PlanLock(Some(t), run.version, run.sha).text, n)))
  {
    hide ReadLock, Row, Version, Word, EndsLine;
    var start, row := t + Separator(t), Row(run.version, run.sha);
    SeparatorReadsBack(t);
    if n == |t| {
      assert Part(start + row, n) == t;
    } else {
      var m := n - |start|;
      assert Part(start + row, n) == start + Part(row, m);
      PartOfRowReadsBack(start, run.version, run.sha, m);
    }
  }

  lemma RunKeepsRows(s: State, run: Run)
    requires Plain(run) && !CutsLock(s, run)
    ensures Keeps(s.lock, After(s, run).0.lock)
    ensures LockRows(s.lock).None? ==> After(s, run).0.lock == s.lock
  {
    hide ReadLock;
    if Planned(s, run).Append? {
      AppendAddsOneRow(s, run);
      if run.death.InLock? && s.lock.Some? {
        PartOfAppend(s.lock.value, run, run.death.written);
      }
    }
  }

  function AfterAll(s: State, runs: seq<Run>): State
    decreases |runs|
  {
    if runs == [] then s else AfterAll(After(s, runs[0]).0, runs[1..])
  }

  /** No run in the sequence dies with less in the lock file than it found. */
  predicate NoneCuts(s: State, runs: seq<Run>)
    decreases |runs|
  {
    runs == [] || (Plain(runs[0]) && !CutsLock(s, runs[0]) && NoneCuts(After(s, runs[0]).0, runs[1..]))
  }

  /** Over every such sequence the lock only grows, and no row of it is lost or changed. */
  lemma {:induction false} RunsKeepRows(s: State, runs: seq<Run>)
    requires NoneCuts(s, runs)
    ensures Extends(s.lock, AfterAll(s, runs).lock) && Keeps(s.lock, AfterAll(s, runs).lock)
    ensures LockRows(s.lock).None? ==> AfterAll(s, runs).lock == s.lock
    decreases |runs|
  {
    hide After, LockRows, CutsLock, Plain;
    if runs != [] {
      LockOnlyGrows(s, runs[0]);
      RunKeepsRows(s, runs[0]);
      RunsKeepRows(After(s, runs[0]).0, runs[1..]);
    }
  }

  /** A run that finishes leaves its own version and hash in the lock file. */
  lemma WroteLeavesRow(s: State, run: Run)
    requires Plain(run) && After(s, run).1 == Wrote
    ensures var rows := LockRows(After(s, run).0.lock);
      rows.Some? && run.version in rows.value && rows.value[run.version] == run.sha
  {
    hide ReadLock;
    if Planned(s, run).Append? {
      AppendAddsOneRow(s, run);
    }
  }

  /** Two runs of one sequence that finish under one version wrote one hash, whatever ran between them. */
  lemma OneHashPerVersion(s: State, first: Run, between: seq<Run>, second: Run)
    requires NoneCuts(s, [first] + between) && Plain(second)
    requires After(s, first).1 == Wrote && first.version == second.version
    requires After(AfterAll(s, [first] + between), second).1 == Wrote
    ensures first.sha == second.sha
  {
    hide ReadLock;
    assert ([first] + between)[1..] == between;
    var s1 := After(s, first).0;
    WroteLeavesRow(s, first);
    RunsKeepRows(s1, between);
    var s2 := AfterAll(s1, between);
    RunKeepsRows(s2, second);
    WroteLeavesRow(s2, second);
  }

  /**
   So, unless the hash collides on them, the two documents published have one shape: their stable parts are the same
   but for annotations.
   */
  lemma OneShapePerVersion(s: State, first: Run, between: seq<Run>, second: Run, a: Doc, b: Doc, hash: Value -> string)
    requires hash(Shape(a)) == hash(Shape(b)) ==> Shape(a) == Shape(b)
    requires first.sha == hash(Shape(a)) && second.sha == hash(Shape(b))
    requires NoneCuts(s, [first] + between) && Plain(second)
    requires After(s, first).1 == Wrote && first.version == second.version
    requires After(AfterAll(s, [first] + between), second).1 == Wrote
    ensures Shape(a) == Shape(b) && SamePublished(a, b)
  {
    OneHashPerVersion(s, first, between, second);
    hide Shape, SamePublished;
    ShapeExactly(a, b);
  }

  /** A run that refuses, or that cannot read the lock file, writes neither file. */
  lemma RefusalWritesNothing(s: State, run: Run)
    ensures var (next, outcome) := After(s, run);
      (outcome == Refused <==> LockRows(s.lock).Some? && run.version in LockRows(s.lock).value
                               && LockRows(s.lock).value[run.version] != run.sha)
      && (outcome in {Refused, Raised} ==> next == s)
  {
    hide ReadLock;
  }

  /** The document is written first: the lock file never changes before the document it is for is whole. */
  lemma LockIsNeverAhead(s: State, run: Run)
    ensures After(s, run).0.lock != s.lock ==> After(s, run).0.doc == Some(run.text)
    ensures After(s, run).0.doc != s.doc ==> After(s, run).1 in {Wrote, Died} && !Planned(s, run).Refuse?
  {
    hide ReadLock, Row, HEADER, Separator;
  }

  /** `check` passes exactly where a run to the end would finish and change nothing. */
  lemma CheckIsWriteChangesNothing(s: State, run: Run)
    requires run.death == Never
    ensures Checked(s, run.text, run.version, run.sha) == Passes <==> After(s, run) == (s, Wrote)
  {
    hide ReadLock, HEADER, Separator;
    var plan := Planned(s, run);
    assert plan.Append? && s.lock.Some? ==> |plan.text| > |s.lock.value|;
  }

  /** `check` passes right after a run that finished. */
  lemma CheckAfterWrite(s: State, run: Run)
    requires Plain(run) && After(s, run).1 == Wrote
    ensures Checked(After(s, run).0, run.text, run.version, run.sha) == Passes
  {
    hide ReadLock;
    WroteLeavesRow(s, run);
  }

  /** A run that dies right after the lock file is emptied loses its rows: another hash is then accepted. */
  lemma CutForgets(s: State, run: Run, next: Run)
    requires Planned(s, run).Append? && run.death == InLock(0) && next.death == Never && Plain(next)
    ensures After(After(s, run).0, next).1 == Wrote
    ensures LockRows(After(After(s, run).0, next).0.lock) == Some(map[next.version := next.sha])
  {
    var cut := After(s, run).0;
    assert cut.lock == Some([]);
    EmptyReads();
    hide ReadLock, Row, HEADER, Separator, Version, Word, EndsLine;
    AppendAddsOneRow(cut, next);
  }
}
