/**
 What every run of the vector backfill keeps, wherever it is stopped, and what runs after one another
 come to.
 */
module Relocation {
  import opened Options
  import opened Basics
  import opened Backfill
  import Blankness

  // ---- every row walked lands in one outcome

  /** `sum(counts.values())`. */
  function Total(c: Counts): nat {
    Get(c, BlankSkipped) + Get(c, AmbiguousSkipped) + Get(c, AlreadyNamed)
    + Get(c, NoVector) + Get(c, WouldRelocate) + Get(c, Outcome.Relocated)
  }

  /** `partition_ok`. */
  predicate PartitionOk(w: Walk) {
    Total(w.counts) + w.skipped == w.seen
  }

  lemma CountOne(c: Counts, o: Outcome)
    ensures Total(c[o := Get(c, o) + 1]) == Total(c) + 1
  {
    match o
    case BlankSkipped =>
    case AmbiguousSkipped =>
    case AlreadyNamed =>
    case NoVector =>
    case WouldRelocate =>
    case Relocated =>
  }

  /** The promise of the run: at every place it can end, outcomes and skipped rows sum to rows walked. */
  lemma {:induction false} PartitionHolds(was: seq<Row>, n: nat, flags: Flags, world: World)
    requires n <= |was|
    ensures PartitionOk(WalkOf(was, n, flags, world))
  {
    hide Step, Total, Get;
    if n == 0 {
      NoneCounted();
    } else {
      PartitionHolds(was, n - 1, flags, world);
      StepPartitions(WalkOf(was, n - 1, flags, world), n - 1, was[n - 1], flags, world);
    }
  }

  lemma StepPartitions(w: Walk, i: nat, row: Row, flags: Flags, world: World)
    requires i < |w.rows| && PartitionOk(w)
    ensures PartitionOk(Step(w, i, row, flags, world))
  {
    hide OutcomeOf, Total, Get, Moved, Wanted, UriOf;
    CountOne(w.counts, OutcomeOf(row, flags));
  }

  lemma NoneCounted()
    ensures Total(map[]) == 0
  {
  }

  // ---- what is written, and when it is checked

  /** How many rows have been sent since a row was last checked. */
  function Unchecked(log: seq<Event>): nat {
    if log == [] || log[|log| - 1].Checked? then 0 else Unchecked(log[..|log| - 1]) + 1
  }

  /** The first row sent is checked next, and nothing follows unless it was found. */
  predicate FirstIsChecked(log: seq<Event>) {
    && (|log| > 0 ==> log[0].Sent?)
    && (|log| > 1 ==> log[1].Checked? && log[1].id == log[0].id)
    && (|log| > 2 ==> log[1].ok)
  }

  /** A check is of the row just sent, and a failed one is the last thing the run does. */
  predicate ChecksStop(log: seq<Event>) {
    forall j :: 0 <= j < |log| && log[j].Checked? ==>
      0 < j && log[j - 1] == Sent(log[j].id) && (!log[j].ok ==> j == |log| - 1)
  }

  /** No row is sent while `every` rows stand unchecked. */
  predicate SoonChecked(log: seq<Event>, every: nat) {
    every > 0 ==> forall j :: 0 <= j < |log| && log[j].Sent? ==> Unchecked(log[..j]) < every
  }

  /** After the first check, a row is checked only when as many stand unchecked as are asked for. */
  predicate OnlyWhenDue(log: seq<Event>, every: nat) {
    forall j :: 1 < j < |log| && log[j].Checked? ==> every > 0 && Unchecked(log[..j]) == every
  }

  predicate Careful(log: seq<Event>, every: nat) {
    FirstIsChecked(log) && ChecksStop(log) && SoonChecked(log, every) && OnlyWhenDue(log, every)
  }

  predicate AllOk(log: seq<Event>) {
    forall j :: 0 <= j < |log| && log[j].Checked? ==> log[j].ok
  }

  /** What the loop's own counters say of the log while the run goes on. */
  predicate Agrees(w: Walk, flags: Flags) {
    && Careful(w.log, flags.verifyEvery)
    && (w.stop in {Going, Interrupted} ==>
      && w.since == Unchecked(w.log) && (w.verifiedOnce <==> w.log != []) && |w.log| != 1
      && (flags.verifyEvery > 0 ==> w.since < flags.verifyEvery)
      && AllOk(w.log))
    && (w.stop == Regressed <==> w.log != [] && w.log[|w.log| - 1].Checked? && !w.log[|w.log| - 1].ok)
  }

  lemma SentIsUnchecked(log: seq<Event>, id: nat)
    ensures Unchecked(log + [Sent(id)]) == Unchecked(log) + 1
  {
    assert (log + [Sent(id)])[..|log|] == log;
  }

  lemma SendKeeps(log: seq<Event>, id: nat, every: nat)
    requires Careful(log, every) && AllOk(log) && |log| != 1 && (every > 0 ==> Unchecked(log) < every)
    ensures Careful(log + [Sent(id)], every) && AllOk(log + [Sent(id)])
    ensures Unchecked(log + [Sent(id)]) == Unchecked(log) + 1
  {
    SentIsUnchecked(log, id);
    SendKeepsOrder(log, id);
    SendKeepsCounts(log, id, every);
    hide Unchecked, FirstIsChecked, ChecksStop, SoonChecked, OnlyWhenDue, AllOk;
  }

  lemma SendKeepsOrder(log: seq<Event>, id: nat)
    requires FirstIsChecked(log) && ChecksStop(log) && AllOk(log) && |log| != 1
    ensures var next := log + [Sent(id)]; FirstIsChecked(next) && ChecksStop(next) && AllOk(next)
  {
    var next := log + [Sent(id)];
    forall j | 0 <= j < |log| ensures next[j] == log[j] {
    }
  }

  lemma SendKeepsCounts(log: seq<Event>, id: nat, every: nat)
    requires SoonChecked(log, every) && OnlyWhenDue(log, every) && (every > 0 ==> Unchecked(log) < every)
    ensures SoonChecked(log + [Sent(id)], every) && OnlyWhenDue(log + [Sent(id)], every)
  {
    hide Unchecked;
    var next := log + [Sent(id)];
    assert next[..|log|] == log;
    forall j | 0 <= j < |log| ensures next[..j] == log[..j] && next[j] == log[j] {
    }
  }

  lemma CheckKeeps(log: seq<Event>, id: nat, ok: bool, every: nat)
    requires Careful(log, every) && AllOk(log) && log != [] && log[|log| - 1] == Sent(id)
    requires |log| > 1 ==> every > 0 && Unchecked(log) == every
    ensures Careful(log + [Checked(id, ok)], every) && Unchecked(log + [Checked(id, ok)]) == 0
    ensures ok ==> AllOk(log + [Checked(id, ok)])
  {
    var next := log + [Checked(id, ok)];
    assert next[..|log|] == log;
    forall j | 0 <= j < |log| ensures next[..j] == log[..j] && next[j] == log[j] {
    }
  }

  /** At every place a run can end, its log is careful. */
  lemma {:induction false} WalkIsCareful(was: seq<Row>, n: nat, flags: Flags, world: World)
    requires n <= |was|
    ensures Agrees(WalkOf(was, n, flags, world), flags)
  {
    hide Step;
    if n == 0 {
      hide WalkOf;
      StartIsCareful(was, flags);
      assert WalkOf(was, 0, flags, world) == Start(was) by {
        NoStep(was, flags, world);
      }
    } else {
      hide Agrees;
      WalkIsCareful(was, n - 1, flags, world);
      StepIsCareful(WalkOf(was, n - 1, flags, world), n - 1, was[n - 1], flags, world);
    }
  }

  lemma NoStep(was: seq<Row>, flags: Flags, world: World)
    ensures WalkOf(was, 0, flags, world) == Start(was)
  {
  }

  lemma StartIsCareful(was: seq<Row>, flags: Flags)
    ensures Agrees(Start(was), flags)
  {
  }

  lemma StepIsCareful(w: Walk, i: nat, row: Row, flags: Flags, world: World)
    requires i < |w.rows| && Agrees(w, flags)
    ensures Agrees(Step(w, i, row, flags, world), flags)
  {
    hide OutcomeOf, Careful, Unchecked, AllOk;
    if w.stop == Going && OutcomeOf(row, flags) == Outcome.Relocated {
      SendIsCareful(w, i, row, flags, world);
    }
  }

  lemma SendIsCareful(w: Walk, i: nat, row: Row, flags: Flags, world: World)
    requires i < |w.rows| && Agrees(w, flags) && w.stop == Going && OutcomeOf(row, flags) == Outcome.Relocated
    ensures Agrees(Handled(w, i, row, flags, world), flags)
  {
    hide OutcomeOf, Careful, Unchecked, AllOk, Moved, UriOf;
    SendKeeps(w.log, row.id, flags.verifyEvery);
    var sent := w.log + [Sent(row.id)];
    var since := w.since + 1;
    if !w.verifiedOnce || (flags.verifyEvery > 0 && since >= flags.verifyEvery) {
      CheckKeeps(sent, row.id, world.found(row.id), flags.verifyEvery);
    }
  }

  // ---- which rows are taken, and what becomes of them

  /** How many of the first `i` rows are wanted. */
  ghost function Rank(was: seq<Row>, i: nat, flags: Flags): nat
    requires i <= |was|
  {
    if i == 0 then 0 else Rank(was, i - 1, flags) + if InSelection(was[i - 1], flags) then 1 else 0
  }

  /** Is row `i` one of those between the offset and the limit? */
  ghost predicate Chosen(was: seq<Row>, i: nat, flags: Flags)
    requires i < |was|
  {
    var r := Rank(was, i, flags);
    InSelection(was[i], flags) && flags.offset <= r && (flags.limit > 0 ==> r < flags.offset + flags.limit)
  }

  /** What a complete run makes of one row. */
  ghost function Fate(was: seq<Row>, i: nat, flags: Flags): Row
    requires i < |was|
  {
    if Chosen(was, i, flags) && OutcomeOf(was[i], flags) == Outcome.Relocated then Moved(was[i], flags.space)
    else was[i]
  }

  /** How many of the first `n` rows are taken with this outcome. */
  ghost function Tally(was: seq<Row>, n: nat, o: Outcome, flags: Flags): nat
    requires n <= |was|
  {
    if n == 0 then 0
    else Tally(was, n - 1, o, flags) + if Chosen(was, n - 1, flags) && OutcomeOf(was[n - 1], flags) == o then 1 else 0
  }

  /** Where the walk stands after `n` rows. */
  ghost predicate InStep(w: Walk, was: seq<Row>, n: nat, flags: Flags)
    requires n <= |was|
  {
    var r := Rank(was, n, flags);
    && w.seen == (if flags.limit == 0 then r else Least(r, flags.offset + flags.limit))
    && w.skipped == Least(r, flags.offset)
  }

  lemma {:induction false} WalkKeepsStep(was: seq<Row>, n: nat, flags: Flags, world: World)
    requires n <= |was| && WalkOf(was, n, flags, world).stop == Going
    ensures InStep(WalkOf(was, n, flags, world), was, n, flags)
    ensures n > 0 ==> WalkOf(was, n - 1, flags, world).stop == Going
  {
    hide Step;
    if n > 0 {
      var w := WalkOf(was, n - 1, flags, world);
      StoppedStays(w, n - 1, was[n - 1], flags, world);
      WalkKeepsStep(was, n - 1, flags, world);
      StepCounts(w, n - 1, was[n - 1], flags, world);
    }
  }

  /** A turn that lets the run go on counts its row when it is wanted and the limit is not used up. */
  lemma StepCounts(w: Walk, i: nat, row: Row, flags: Flags, world: World)
    requires i < |w.rows| && w.stop == Going && Step(w, i, row, flags, world).stop == Going
    ensures var next := Step(w, i, row, flags, world);
      var counts := Wanted(row, flags) && (w.seen < flags.offset || !LimitReached(w.seen, flags));
      && next.seen == w.seen + (if counts then 1 else 0)
      && next.skipped == w.skipped + if counts && w.seen < flags.offset then 1 else 0
  {
    hide OutcomeOf, Wanted, Moved, UriOf;
  }

  lemma StoppedStays(w: Walk, i: nat, row: Row, flags: Flags, world: World)
    requires i < |w.rows|
    ensures w.stop != Going ==> Step(w, i, row, flags, world) == w
  {
  }

  /** A turn handles its row exactly when the row is chosen. */
  lemma StepChooses(was: seq<Row>, n: nat, flags: Flags, world: World)
    requires n < |was| && WalkOf(was, n + 1, flags, world).stop == Going
    ensures var w := WalkOf(was, n, flags, world);
      w.stop == Going && !world.interrupts(n)
      && WalkOf(was, n + 1, flags, world) ==
        if Chosen(was, n, flags) then Handled(w, n, was[n], flags, world)
        else w.(seen := WalkOf(was, n + 1, flags, world).seen, skipped := WalkOf(was, n + 1, flags, world).skipped)
  {
    WalkKeepsStep(was, n + 1, flags, world);
    WalkKeepsStep(was, n, flags, world);
    hide OutcomeOf, Wanted, Handled;
  }

  lemma HandledFacts(w: Walk, i: nat, row: Row, flags: Flags, world: World)
    requires i < |w.rows| && w.rows[i] == row && w.stop == Going
    ensures var next := Handled(w, i, row, flags, world);
      var moved := OutcomeOf(row, flags) == Outcome.Relocated;
      && (next.rows == w.rows || (moved && next.rows == w.rows[i := Moved(row, flags.space)]))
      && (next.stop == Going ==>
        && next.rows == (if moved then w.rows[i := Moved(row, flags.space)] else w.rows)
        && next.counts == w.counts[OutcomeOf(row, flags) := Get(w.counts, OutcomeOf(row, flags)) + 1]
        && next.withUri == w.withUri + if UriOf(row) != "" then 1 else 0)
  {
    hide OutcomeOf, Moved, UriOf;
  }

  /** While the run goes on, every row walked has met its fate and every outcome its tally. */
  lemma {:induction false} WalkSoFar(was: seq<Row>, n: nat, flags: Flags, world: World)
    requires n <= |was| && WalkOf(was, n, flags, world).stop == Going
    ensures var w := WalkOf(was, n, flags, world);
      && (forall i :: 0 <= i < n ==> w.rows[i] == Fate(was, i, flags))
      && (forall i :: n <= i < |was| ==> w.rows[i] == was[i])
      && (forall o :: Get(w.counts, o) == Tally(was, n, o, flags))
  {
    hide OutcomeOf, Moved, Chosen, Handled, Wanted, Step;
    if n > 0 {
      StepChooses(was, n - 1, flags, world);
      hide WalkOf;
      WalkSoFar(was, n - 1, flags, world);
      HandledFacts(WalkOf(was, n - 1, flags, world), n - 1, was[n - 1], flags, world);
    } else {
      assert WalkOf(was, 0, flags, world) == Start(was) by {
        NoStep(was, flags, world);
      }
    }
  }

  /** Wherever the run is stopped, a row is as it was or has met its fate. */
  lemma {:induction false} WalkTouches(was: seq<Row>, n: nat, flags: Flags, world: World)
    requires n <= |was|
    ensures var w := WalkOf(was, n, flags, world);
      forall i :: 0 <= i < |was| ==> w.rows[i] == was[i] || w.rows[i] == Fate(was, i, flags)
  {
    hide OutcomeOf, Moved, Chosen, Handled, Wanted;
    hide Step, InStep;
    var w := WalkOf(was, n, flags, world);
    if w.stop == Going {
      WalkSoFar(was, n, flags, world);
    } else if n > 0 {
      var before := WalkOf(was, n - 1, flags, world);
      WalkTouches(was, n - 1, flags, world);
      StoppedStays(before, n - 1, was[n - 1], flags, world);
      if before.stop == Going {
        WalkSoFar(was, n - 1, flags, world);
        WalkKeepsStep(was, n - 1, flags, world);
        StepTouches(was, n - 1, before, flags, world);
      }
    }
  }

  lemma StepTouches(was: seq<Row>, n: nat, w: Walk, flags: Flags, world: World)
    requires n < |was| == |w.rows| && w.rows[n] == was[n] && w.stop == Going && InStep(w, was, n, flags)
    ensures var rows := Step(w, n, was[n], flags, world).rows;
      rows == w.rows || rows == w.rows[n := Fate(was, n, flags)]
  {
    hide OutcomeOf, Moved, Wanted, Handled;
    HandledFacts(w, n, was[n], flags, world);
  }

  lemma {:induction false} RankGrows(was: seq<Row>, i: nat, j: nat, flags: Flags)
    requires i <= j <= |was|
    ensures Rank(was, i, flags) <= Rank(was, j, flags)
    decreases j
  {
    if i < j {
      RankGrows(was, i, j - 1, flags);
    }
  }

  lemma {:induction false} TallyRests(was: seq<Row>, n: nat, m: nat, o: Outcome, flags: Flags)
    requires n <= m <= |was|
    requires forall i :: n <= i < m ==> !Chosen(was, i, flags)
    ensures Tally(was, m, o, flags) == Tally(was, n, o, flags)
    decreases m
  {
    hide Chosen, OutcomeOf;
    if n < m {
      TallyRests(was, n, m - 1, o, flags);
    }
  }

  /** Is every row walked, or the limit used up? */
  predicate Through(was: seq<Row>, n: nat, flags: Flags, world: World)
    requires n <= |was|
  {
    var w := WalkOf(was, n, flags, world);
    w.stop == Going && (n == |was| || LimitReached(w.seen, flags))
  }

  /** A run that finishes gives every row of the collection its fate and every outcome its tally. */
  lemma FinishedExactly(was: seq<Row>, n: nat, flags: Flags, world: World)
    requires n <= |was| && Through(was, n, flags, world)
    ensures var w := WalkOf(was, n, flags, world);
      && (forall i :: 0 <= i < |was| ==> w.rows[i] == Fate(was, i, flags))
      && (forall o :: Get(w.counts, o) == Tally(was, |was|, o, flags))
  {
    var w := WalkOf(was, n, flags, world);
    WalkSoFar(was, n, flags, world);
    WalkKeepsStep(was, n, flags, world);
    forall i | n <= i < |was| ensures !Chosen(was, i, flags) {
      RankGrows(was, n, i, flags);
    }
    hide OutcomeOf, Chosen, WalkOf, Moved;
    forall o ensures Get(w.counts, o) == Tally(was, |was|, o, flags) {
      TallyRests(was, n, |was|, o, flags);
    }
  }

  // ---- the exit code

  /** The code a finished run exits with; `uriless` says the collection is known to carry no uris. */
  function ExitCode(w: Walk, uriless: bool): int {
    if !PartitionOk(w) then 2
    else if w.seen > 0 && w.withUri == 0 && !uriless then 2
    else if Get(w.counts, AmbiguousSkipped) > 0 then 2
    else 0
  }

  lemma {:induction false} TallyIsSome(was: seq<Row>, n: nat, o: Outcome, flags: Flags)
    requires n <= |was|
    ensures Tally(was, n, o, flags) > 0 <==>
      exists i :: 0 <= i < n && Chosen(was, i, flags) && OutcomeOf(was[i], flags) == o
  {
    hide Chosen, OutcomeOf;
    if n > 0 {
      TallyIsSome(was, n - 1, o, flags);
    }
  }

  lemma {:induction false} WithUriIsSome(was: seq<Row>, n: nat, flags: Flags, world: World)
    requires n <= |was| && WalkOf(was, n, flags, world).stop == Going
    ensures WalkOf(was, n, flags, world).withUri > 0 <==>
      exists i :: 0 <= i < n && Chosen(was, i, flags) && UriOf(was[i]) != ""
  {
    hide Chosen, OutcomeOf, UriOf, Handled, Step;
    if n > 0 {
      StepChooses(was, n - 1, flags, world);
      hide WalkOf;
      WithUriIsSome(was, n - 1, flags, world);
      WalkSoFar(was, n - 1, flags, world);
      HandledFacts(WalkOf(was, n - 1, flags, world), n - 1, was[n - 1], flags, world);
    }
  }

  lemma {:induction false} RankIsSome(was: seq<Row>, n: nat, flags: Flags)
    requires n <= |was|
    ensures Rank(was, n, flags) > 0 <==> exists i :: 0 <= i < n && Wanted(was[i], flags)
  {
    hide Wanted;
    if n > 0 {
      RankIsSome(was, n - 1, flags);
    }
  }

  /** A run that finishes has walked no row exactly when none is wanted, and chosen none it has not walked. */
  lemma FinishedWalks(was: seq<Row>, n: nat, flags: Flags, world: World)
    requires n <= |was| && Through(was, n, flags, world)
    ensures WalkOf(was, n, flags, world).seen == 0 <==> forall i :: 0 <= i < |was| ==> !Wanted(was[i], flags)
    ensures forall i :: n <= i < |was| ==> !Chosen(was, i, flags)
  {
    WalkKeepsStep(was, n, flags, world);
    RankIsSome(was, n, flags);
    hide Wanted;
    forall i | n <= i < |was| ensures !Chosen(was, i, flags) {
      RankGrows(was, n, i, flags);
    }
    hide WalkOf;
    assert WalkOf(was, n, flags, world).seen == 0 && n < |was| ==> flags.limit == 0;
  }

  /**
   A clean exit means no chosen row is undecided and the blank check was live: some chosen row has a uri, or none
   is wanted, or the collection is known to carry none.
   */
  lemma CleanExitExactly(was: seq<Row>, n: nat, flags: Flags, world: World, uriless: bool)
    requires n <= |was| && Through(was, n, flags, world)
    ensures ExitCode(WalkOf(was, n, flags, world), uriless) in {0, 2}
    ensures ExitCode(WalkOf(was, n, flags, world), uriless) == 0 <==>
      && (forall i :: 0 <= i < |was| && Chosen(was, i, flags) ==> !KindIs(was[i], Blankness.Ambiguous))
      && (uriless || (forall i :: 0 <= i < |was| ==> !InSelection(was[i], flags))
          || exists i :: 0 <= i < |was| && Chosen(was, i, flags) && HasUri(was[i]))
  {
    PartitionHolds(was, n, flags, world);
    FinishedExactly(was, n, flags, world);
    FinishedWalks(was, n, flags, world);
    TallyIsSome(was, |was|, AmbiguousSkipped, flags);
    WithUriIsSome(was, n, flags, world);
    forall i | 0 <= i < |was|
      ensures OutcomeOf(was[i], flags) == AmbiguousSkipped <==> KindIs(was[i], Blankness.Ambiguous)
    {
      OutcomeExactly(was[i], flags);
    }
    hide Chosen, OutcomeOf, KindIs, WalkOf, Tally, PartitionOk, Wanted;
  }

  // ---- runs one after another

  /** What a complete run makes of a row it takes. */
  ghost function Settled(row: Row, space: string): Row {
    if ToMove(row, space) then Moved(row, space) else row
  }

  /** A row moved keeps its id and properties, holds its own vector under the name, and moves no more. */
  lemma MovedFacts(row: Row, space: string)
    requires ToMove(row, space)
    ensures var moved := Moved(row, space);
      && moved == Row(row.id, row.props, [], map[space := row.legacy])
      && Slot(moved, space) == row.legacy && !ToMove(moved, space)
  {
  }

  /** Row by row, the second collection is the first with some of its movable rows moved. */
  ghost predicate Touched(was: seq<Row>, rows: seq<Row>, space: string) {
    |rows| == |was| && forall i :: 0 <= i < |was| ==> rows[i] == was[i] || rows[i] == Settled(was[i], space)
  }

  ghost function AllSettled(rows: seq<Row>, space: string): seq<Row> {
    seq(|rows|, i requires 0 <= i < |rows| => Settled(rows[i], space))
  }

  lemma WalkTouched(was: seq<Row>, n: nat, flags: Flags, world: World)
    requires n <= |was|
    ensures Touched(was, WalkOf(was, n, flags, world).rows, flags.space)
  {
    hide OutcomeOf, ToMove, Moved, Chosen, WalkOf;
    WalkTouches(was, n, flags, world);
    forall i | 0 <= i < |was| ensures Fate(was, i, flags) in {was[i], Settled(was[i], flags.space)} {
      OutcomeExactly(was[i], flags);
    }
  }

  lemma TouchedTwice(a: seq<Row>, b: seq<Row>, c: seq<Row>, space: string)
    requires Touched(a, b, space) && Touched(b, c, space)
    ensures Touched(a, c, space)
  {
    hide ToMove, Moved;
    forall i | 0 <= i < |a| && ToMove(a[i], space)
      ensures Settled(Settled(a[i], space), space) == Settled(a[i], space)
    {
      MovedFacts(a[i], space);
    }
  }

  /** A run over the same space, and how many rows it came to. */
  datatype Turn = Turn(flags: Flags, world: World, walked: nat)

  /** The collection after these runs, each stopped wherever it was. */
  function AfterTurns(rows: seq<Row>, turns: seq<Turn>): seq<Row>
    decreases |turns|
  {
    if turns == [] then rows
    else AfterTurns(WalkOf(rows, Least(turns[0].walked, |rows|), turns[0].flags, turns[0].world).rows, turns[1..])
  }

  /** Over any runs, stopped anywhere, a row is as it was or has its own vector moved under the name. */
  lemma {:induction false} TurnsTouch(rows: seq<Row>, turns: seq<Turn>, space: string)
    requires forall t :: t in turns ==> t.flags.space == space
    ensures Touched(rows, AfterTurns(rows, turns), space)
    decreases |turns|
  {
    hide Touched;
    if turns == [] {
      TouchedSelf(rows, space);
    } else {
      var t := turns[0];
      var next := WalkOf(rows, Least(t.walked, |rows|), t.flags, t.world).rows;
      WalkTouched(rows, Least(t.walked, |rows|), t.flags, t.world);
      TurnsTouch(next, turns[1..], space);
      TouchedTwice(rows, next, AfterTurns(next, turns[1..]), space);
    }
  }

  lemma TouchedSelf(rows: seq<Row>, space: string)
    ensures Touched(rows, rows, space)
  {
  }

  lemma TouchedSettles(was: seq<Row>, rows: seq<Row>, space: string)
    requires Touched(was, rows, space)
    ensures AllSettled(rows, space) == AllSettled(was, space)
  {
    hide ToMove, Moved;
    forall i | 0 <= i < |was| ensures Settled(rows[i], space) == Settled(was[i], space) {
      if ToMove(was[i], space) {
        MovedFacts(was[i], space);
      }
    }
  }

  predicate Whole(flags: Flags) {
    flags.apply && flags.wanted.None? && flags.offset == 0 && flags.limit == 0
  }

  lemma WholeChooses(was: seq<Row>, i: nat, flags: Flags)
    requires Whole(flags) && i < |was|
    ensures Chosen(was, i, flags)
  {
  }

  /** Whatever runs came first, a complete run leaves the collection one complete run alone would have left. */
  lemma InterruptedRunsConverge(was: seq<Row>, turns: seq<Turn>, n: nat, flags: Flags, world: World)
    requires Whole(flags) && forall t :: t in turns ==> t.flags.space == flags.space
    requires n <= |AfterTurns(was, turns)| && Through(AfterTurns(was, turns), n, flags, world)
    ensures WalkOf(AfterTurns(was, turns), n, flags, world).rows == AllSettled(was, flags.space)
  {
    var rows := AfterTurns(was, turns);
    TurnsTouch(was, turns, flags.space);
    hide OutcomeOf, ToMove, Moved, Chosen, WalkOf, AfterTurns, Touched;
    TouchedSettles(was, rows, flags.space);
    FinishedExactly(rows, n, flags, world);
    forall i | 0 <= i < |rows| ensures Fate(rows, i, flags) == Settled(rows[i], flags.space) {
      WholeChooses(rows, i, flags);
      OutcomeExactly(rows[i], flags);
    }
    assert WalkOf(rows, n, flags, world).rows == AllSettled(rows, flags.space);
  }

  lemma IdleStep(w: Walk, i: nat, row: Row, flags: Flags, world: World)
    requires i < |w.rows| && !ToMove(row, flags.space)
    ensures var next := Step(w, i, row, flags, world);
      && next.rows == w.rows && next.log == w.log
      && Get(next.counts, Outcome.Relocated) == Get(w.counts, Outcome.Relocated)
      && Get(next.counts, WouldRelocate) == Get(w.counts, WouldRelocate)
  {
    OutcomeExactly(row, flags);
    hide OutcomeOf, ToMove, Wanted, Moved;
  }

  lemma {:induction false} NothingMoves(rows: seq<Row>, n: nat, flags: Flags, world: World)
    requires n <= |rows| && forall i :: 0 <= i < |rows| ==> !ToMove(rows[i], flags.space)
    ensures var w := WalkOf(rows, n, flags, world);
      w.rows == rows && w.log == [] && Get(w.counts, Outcome.Relocated) == 0 && Get(w.counts, WouldRelocate) == 0
  {
    hide ToMove, Step;
    if n > 0 {
      hide Get;
      NothingMoves(rows, n - 1, flags, world);
      IdleStep(WalkOf(rows, n - 1, flags, world), n - 1, rows[n - 1], flags, world);
    }
  }

  /** After that, no run of any kind writes a row or finds one to move. */
  lemma SettledStaysPut(was: seq<Row>, n: nat, flags: Flags, world: World)
    requires n <= |AllSettled(was, flags.space)|
    ensures var rows := AllSettled(was, flags.space);
      var w := WalkOf(rows, n, flags, world);
      w.rows == rows && w.log == [] && Get(w.counts, Outcome.Relocated) == 0 && Get(w.counts, WouldRelocate) == 0
  {
    hide ToMove, Moved, WalkOf, Get;
    var rows := AllSettled(was, flags.space);
    forall i | 0 <= i < |was| ensures !ToMove(rows[i], flags.space) {
      if ToMove(was[i], flags.space) {
        MovedFacts(was[i], flags.space);
      }
    }
    NothingMoves(rows, n, flags, world);
  }

  /** A dry run over everything that reports nothing to move has seen a settled collection, and only that. */
  lemma DryRunExactly(was: seq<Row>, n: nat, flags: Flags, world: World)
    requires n <= |was| && Through(was, n, flags, world) && Whole(flags.(apply := true)) && !flags.apply
    ensures var w := WalkOf(was, n, flags, world);
      w.rows == was && (Get(w.counts, WouldRelocate) == 0 <==> was == AllSettled(was, flags.space))
  {
    FinishedExactly(was, n, flags, world);
    TallyIsSome(was, |was|, WouldRelocate, flags);
    hide OutcomeOf, ToMove, Moved, WalkOf, Tally, Chosen, Fate, Settled;
    forall i | 0 <= i < |was|
      ensures Fate(was, i, flags) == was[i]
      ensures Chosen(was, i, flags)
        && (OutcomeOf(was[i], flags) == WouldRelocate <==> Settled(was[i], flags.space) != was[i])
    {
      DryRow(was, i, flags);
    }
    SettledByRow(was, flags.space);
    hide AllSettled;
  }

  lemma SettledByRow(was: seq<Row>, space: string)
    ensures was == AllSettled(was, space) <==> forall i :: 0 <= i < |was| ==> Settled(was[i], space) == was[i]
  {
    hide Settled;
    var rows := AllSettled(was, space);
    assert was == rows ==> forall i :: 0 <= i < |was| ==> was[i] == rows[i];
  }

  lemma DryRow(was: seq<Row>, i: nat, flags: Flags)
    requires i < |was| && Whole(flags.(apply := true)) && !flags.apply
    ensures Fate(was, i, flags) == was[i] && Chosen(was, i, flags)
    ensures OutcomeOf(was[i], flags) == WouldRelocate <==> Settled(was[i], flags.space) != was[i]
  {
    WholeChooses(was, i, flags.(apply := true));
    RankOfSame(was, i, flags);
    OutcomeExactly(was[i], flags);
  }

  lemma {:induction false} RankOfSame(was: seq<Row>, i: nat, flags: Flags)
    requires i <= |was|
    ensures Rank(was, i, flags) == Rank(was, i, flags.(apply := true))
  {
    if i > 0 {
      RankOfSame(was, i - 1, flags);
    }
  }

  // ---- what a dry run foretells, and what a run made again counts

  /**
   Where the run would move rows, a dry run of the same selection says that it would, and all else is counted
   alike.
   */
  predicate Foretells(dry: Counts, applied: Counts) {
    && Get(dry, WouldRelocate) == Get(applied, Outcome.Relocated)
    && Get(dry, Outcome.Relocated) == 0 && Get(applied, WouldRelocate) == 0
    && forall o :: o !in {WouldRelocate, Outcome.Relocated} ==> Get(dry, o) == Get(applied, o)
  }

  /** A dry run that finishes leaves every row, and tells what the run that finishes with `--apply` will count. */
  lemma DryRunPredicts(was: seq<Row>, n: nat, m: nat, flags: Flags, dryWorld: World, world: World)
    requires flags.apply && n <= |was| && m <= |was|
    requires Through(was, n, flags.(apply := false), dryWorld) && Through(was, m, flags, world)
    ensures var dry := WalkOf(was, n, flags.(apply := false), dryWorld);
      dry.rows == was && Foretells(dry.counts, WalkOf(was, m, flags, world).counts)
  {
    var dry := flags.(apply := false);
    FinishedExactly(was, n, dry, dryWorld);
    FinishedExactly(was, m, flags, world);
    hide WalkOf, Through, OutcomeOf, Chosen, Tally, Moved;
    forall i | 0 <= i < |was| ensures Fate(was, i, dry) == was[i] {
      OutcomeExactly(was[i], dry);
    }
    hide Get, Fate;
    TalliesOfDry(was, |was|, flags);
  }

  lemma {:induction false} TalliesOfDry(was: seq<Row>, n: nat, flags: Flags)
    requires flags.apply && n <= |was|
    ensures var dry := flags.(apply := false);
      && Tally(was, n, WouldRelocate, dry) == Tally(was, n, Outcome.Relocated, flags)
      && Tally(was, n, Outcome.Relocated, dry) == 0 && Tally(was, n, WouldRelocate, flags) == 0
      && forall o :: o !in {WouldRelocate, Outcome.Relocated} ==> Tally(was, n, o, dry) == Tally(was, n, o, flags)
  {
    hide OutcomeOf, Chosen;
    if n > 0 {
      TalliesOfDry(was, n - 1, flags);
      DryOutcome(was, n - 1, flags);
    }
  }

  lemma DryOutcome(was: seq<Row>, i: nat, flags: Flags)
    requires flags.apply && i < |was|
    ensures var dry := flags.(apply := false);
      && Chosen(was, i, dry) == Chosen(was, i, flags)
      && OutcomeOf(was[i], dry) ==
        if OutcomeOf(was[i], flags) == Outcome.Relocated then WouldRelocate else OutcomeOf(was[i], flags)
    ensures OutcomeOf(was[i], flags) != WouldRelocate
  {
    RankOfSame(was, i, flags.(apply := false));
  }

  /** A run made again moves nothing, and counts among the named rows those it moved before. */
  lemma SecondRunCounts(was: seq<Row>, n: nat, m: nat, flags: Flags, world: World, again: World)
    requires flags.apply && n <= |was| && m <= |was| && Through(was, n, flags, world)
    requires Through(WalkOf(was, n, flags, world).rows, m, flags, again)
    ensures var first := WalkOf(was, n, flags, world);
      var second := WalkOf(first.rows, m, flags, again);
      && second.rows == first.rows
      && Get(second.counts, Outcome.Relocated) == 0
      && Get(second.counts, AlreadyNamed) == Get(first.counts, AlreadyNamed) + Get(first.counts, Outcome.Relocated)
      && forall o :: o !in {AlreadyNamed, Outcome.Relocated} ==> Get(second.counts, o) == Get(first.counts, o)
  {
    var rows := WalkOf(was, n, flags, world).rows;
    FinishedExactly(was, n, flags, world);
    FinishedExactly(rows, m, flags, again);
    hide WalkOf, Through, OutcomeOf, Chosen, Tally, Moved, Get, Fate;
    TalliesAgain(was, rows, |was|, flags);
    forall i | 0 <= i < |was| ensures Fate(rows, i, flags) == rows[i] {
      AgainRow(was, rows, i, flags);
    }
  }

  /** Every row of the second list has met its fate in the first. */
  ghost predicate Fated(was: seq<Row>, rows: seq<Row>, flags: Flags) {
    |rows| == |was| && forall i :: 0 <= i < |was| ==> rows[i] == Fate(was, i, flags)
  }

  lemma {:induction false} TalliesAgain(was: seq<Row>, rows: seq<Row>, n: nat, flags: Flags)
    requires flags.apply && Fated(was, rows, flags) && n <= |was|
    ensures Tally(rows, n, Outcome.Relocated, flags) == 0
    ensures Tally(rows, n, AlreadyNamed, flags) ==
      Tally(was, n, AlreadyNamed, flags) + Tally(was, n, Outcome.Relocated, flags)
    ensures forall o :: o !in {AlreadyNamed, Outcome.Relocated} ==> Tally(rows, n, o, flags) == Tally(was, n, o, flags)
  {
    hide OutcomeOf, Chosen, Fate, Fated;
    if n > 0 {
      TalliesAgain(was, rows, n - 1, flags);
      AgainRow(was, rows, n - 1, flags);
    }
  }

  lemma AgainRow(was: seq<Row>, rows: seq<Row>, i: nat, flags: Flags)
    requires flags.apply && Fated(was, rows, flags) && i < |was|
    ensures Chosen(rows, i, flags) == Chosen(was, i, flags) && Fate(rows, i, flags) == rows[i]
    ensures Chosen(was, i, flags) ==> (
      OutcomeOf(rows[i], flags) ==
        if OutcomeOf(was[i], flags) == Outcome.Relocated then AlreadyNamed else OutcomeOf(was[i], flags))
  {
    FatedRanks(was, rows, i, flags);
    OutcomeExactly(was[i], flags);
    if ToMove(was[i], flags.space) {
      MovedFacts(was[i], flags.space);
    }
  }

  lemma {:induction false} FatedRanks(was: seq<Row>, rows: seq<Row>, i: nat, flags: Flags)
    requires Fated(was, rows, flags) && i <= |was|
    ensures Rank(rows, i, flags) == Rank(was, i, flags)
    ensures i < |was| ==> Wanted(rows[i], flags) == Wanted(was[i], flags)
  {
    hide OutcomeOf, Chosen;
    if i > 0 {
      FatedRanks(was, rows, i - 1, flags);
    }
  }
}
