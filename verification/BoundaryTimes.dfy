/**
 The times a boundary is stored with. The start is stamped when the block is entered and the end when it is left;
 neither is journaled, so every attempt stamps its own, and the store shows those of the emission that landed last.
 */
module BoundaryTimes {
  import opened Options
  import opened Boundary

  /** Step `k` journals the work. */
  predicate WorkJournaled(run: seq<State>, k: nat) {
    k + 1 < |run| && !run[k].journal.work && run[k + 1].journal.work
  }

  /** Step `j` is an emission that lands: the store then shows the boundary with the times of its attempt. */
  predicate Lands(c: Config, run: seq<State>, j: nat) {
    && j + 1 < |run| && Emit(c, run[j], run[j + 1]) && Traced(c, run[j].phase.ids)
    && run[j + 1].store == run[j].store[run[j].phase.ids.span := Shown(run[j].phase)]
  }

  function Shown(p: Phase): Observation
    requires p.Outside? && p.ids.trace.Some?
  {
    Root(p.ids.trace.value, p.startedAt, p.endedAt)
  }

  /** From `k` to `j` the handler neither dies nor raises: one attempt makes both steps. */
  predicate OneAttempt(run: seq<State>, k: nat, j: nat) {
    forall n :: k <= n <= j && n < |run| ==> !run[n].phase.Down?
  }

  // ---- the clock

  lemma StepTimes(c: Config, s: State, s': State)
    requires Next(c, s, s')
    ensures s.clock <= s'.clock
    ensures s'.phase.Outside? && !s.phase.Outside? ==> s'.phase.endedAt == s.clock == s'.clock
    ensures s'.phase.Outside? && s.phase.Outside? ==> s'.phase == s.phase
  {
  }

  lemma {:induction false} ClockRuns(c: Config, run: seq<State>, i: nat, j: nat)
    requires Schedule(c, run) && i <= j < |run|
    ensures run[i].clock <= run[j].clock
    decreases j - i
  {
    hide Next, Init;
    if i < j {
      ClockRuns(c, run, i, j - 1);
      assert Next(c, run[j - 1], run[j - 1 + 1]);
      StepTimes(c, run[j - 1], run[j]);
    }
  }

  lemma {:induction false} EndIsPast(c: Config, run: seq<State>, i: nat)
    requires Schedule(c, run) && i < |run|
    ensures run[i].phase.Outside? ==> run[i].phase.startedAt <= run[i].phase.endedAt <= run[i].clock
  {
    ScheduleKeeps(c, run, i);
    hide Next, IdsKept, StoreKept, EmissionKept;
    if i > 0 {
      EndIsPast(c, run, i - 1);
      assert Next(c, run[i - 1], run[i - 1 + 1]);
      StepTimes(c, run[i - 1], run[i]);
    }
  }

  // ---- the work comes before any emission

  predicate PastWork(p: Phase) {
    p.Returned? || p.Outside? || p.Emitted? || p.Finished?
  }

  lemma StepPastWork(c: Config, s: State, s': State)
    requires Next(c, s, s') && (PastWork(s.phase) ==> s.journal.work)
    ensures PastWork(s'.phase) ==> s'.journal.work
    ensures !s.journal.work && s'.journal.work ==> s.phase.Worked?
  {
  }

  lemma {:induction false} PastWorkIsJournaled(c: Config, run: seq<State>, i: nat)
    requires Schedule(c, run) && i < |run|
    ensures PastWork(run[i].phase) ==> run[i].journal.work
  {
    hide Next;
    if i > 0 {
      PastWorkIsJournaled(c, run, i - 1);
      assert Next(c, run[i - 1], run[i - 1 + 1]);
      StepPastWork(c, run[i - 1], run[i]);
    }
  }

  lemma {:induction false} JournaledOnce(c: Config, run: seq<State>, i: nat) returns (k: nat)
    requires Schedule(c, run) && i < |run| && run[i].journal.work
    ensures k < i && WorkJournaled(run, k)
  {
    hide Next;
    if i > 0 && run[i - 1].journal.work {
      k := JournaledOnce(c, run, i - 1);
    } else {
      k := i - 1;
    }
  }

  /** Before any emission the work was journaled. */
  lemma WorkComesFirst(c: Config, run: seq<State>, j: nat) returns (k: nat)
    requires Schedule(c, run) && Lands(c, run, j)
    ensures k < j && WorkJournaled(run, k)
  {
    PastWorkIsJournaled(c, run, j);
    k := JournaledOnce(c, run, j);
  }

  // ---- within one attempt, and in a later one

  /** Past the work of an attempt that began at `from`, with the work over by `to`. */
  predicate Follows(s: State, from: nat, to: nat) {
    && PastWork(s.phase) && to <= s.clock
    && (s.phase.Returned? ==> s.phase.startedAt == from)
    && (s.phase.Outside? ==> s.phase.startedAt == from && to <= s.phase.endedAt)
  }

  lemma StepFollows(c: Config, s: State, s': State, from: nat, to: nat)
    requires Next(c, s, s') && Follows(s, from, to) && s.journal.work && !s'.phase.Down?
    ensures Follows(s', from, to)
  {
  }

  lemma {:induction false} AttemptFollows(c: Config, run: seq<State>, k: nat, n: nat)
    requires Schedule(c, run) && WorkJournaled(run, k) && k < n < |run| && OneAttempt(run, k, n)
    ensures run[k].phase.Worked? && Follows(run[n], run[k].phase.startedAt, run[k].clock)
    decreases n
  {
    hide Follows, Next, Init, PastWork;
    assert Next(c, run[k], run[k + 1]);
    JournalFollows(c, run[k], run[k + 1]);
    if k + 1 < n {
      AttemptFollows(c, run, k, n - 1);
      PastWorkIsJournaled(c, run, n - 1);
      FollowsPast(run[n - 1], run[k].phase.startedAt, run[k].clock);
      assert Next(c, run[n - 1], run[n - 1 + 1]);
      StepFollows(c, run[n - 1], run[n], run[k].phase.startedAt, run[k].clock);
    }
  }

  lemma JournalFollows(c: Config, s: State, s': State)
    requires Next(c, s, s') && !s.journal.work && s'.journal.work
    ensures s.phase.Worked? && Follows(s', s.phase.startedAt, s.clock)
  {
  }

  lemma FollowsPast(s: State, from: nat, to: nat)
    requires Follows(s, from, to)
    ensures PastWork(s.phase)
  {
  }

  /** No block open or left was entered before this time. */
  predicate EnteredSince(s: State, time: nat) {
    && time <= s.clock
    && (InBlock(s.phase) || s.phase.Outside? ==> time <= s.phase.startedAt)
  }

  lemma StepEnteredSince(c: Config, s: State, s': State, time: nat)
    requires Next(c, s, s') && EnteredSince(s, time)
    ensures EnteredSince(s', time)
  {
  }

  lemma {:induction false} LaterIsEnteredSince(c: Config, run: seq<State>, d: nat, n: nat)
    requires Schedule(c, run) && d <= n < |run| && run[d].phase.Down?
    ensures EnteredSince(run[n], run[d].clock)
    decreases n - d
  {
    hide Next;
    if d < n {
      LaterIsEnteredSince(c, run, d, n - 1);
      assert Next(c, run[n - 1], run[n - 1 + 1]);
      StepEnteredSince(c, run[n - 1], run[n], run[d].clock);
    }
  }

  // ---- what the stored times are

  /**
   The times an emission lands with cover the work exactly when the attempt that journaled the work makes it, or
   the clock had not moved when a later one entered its block. A later attempt's block starts after the work.
   */
  lemma CoversExactly(c: Config, run: seq<State>, k: nat, j: nat)
    requires Schedule(c, run) && WorkJournaled(run, k) && k < j && Lands(c, run, j)
    ensures run[k].phase.Worked?
    ensures var from, to := run[j].phase.startedAt, run[j].phase.endedAt;
      var began, ended := run[k].phase.startedAt, run[k].clock;
      && (if OneAttempt(run, k, j) then from == began && ended <= to else ended <= from)
      && (from <= began && ended <= to <==> OneAttempt(run, k, j) || from == began)
  {
    WorkIsOpen(c, run, k);
    EndIsPast(c, run, j);
    if OneAttempt(run, k, j) {
      AttemptFollows(c, run, k, j);
    } else {
      var d: nat :| k <= d <= j && run[d].phase.Down?;
      LaterIsEnteredSince(c, run, d, j);
      ClockRuns(c, run, k, d);
    }
  }

  lemma WorkIsOpen(c: Config, run: seq<State>, k: nat)
    requires Schedule(c, run) && WorkJournaled(run, k)
    ensures run[k].phase.Worked? && run[k].phase.startedAt <= run[k].clock
  {
    assert Next(c, run[k], run[k + 1]);
    PastWorkIsJournaled(c, run, k);
    StepPastWork(c, run[k], run[k + 1]);
    ScheduleKeeps(c, run, k);
  }

  /** Step `j` is the last emission to land before `i`. */
  predicate LastLanding(c: Config, run: seq<State>, j: nat, i: nat) {
    Lands(c, run, j) && j < i < |run| && forall n :: j < n < i ==> !Lands(c, run, n)
  }

  lemma StepKeepsShown(c: Config, first: State, s: State, s': State, ids: Ids)
    requires Inv(c, first, s) && Next(c, s, s') && s.journal.ids == Some(ids) && ids.span in s.store
    ensures s'.journal.ids == Some(ids) && ids.span in s'.store
    ensures s'.store[ids.span] == s.store[ids.span] || (Emit(c, s, s') && Traced(c, ids) && s.phase.ids == ids
      && s'.store == s.store[ids.span := Shown(s.phase)])
  {
  }

  /** The store shows the times of the emission that landed last. */
  lemma {:induction false} ShowsLast(c: Config, run: seq<State>, j: nat, i: nat)
    requires Schedule(c, run) && LastLanding(c, run, j, i)
    ensures var ids := run[j].phase.ids;
      run[i].journal.ids == Some(ids) && ids.span in run[i].store && run[i].store[ids.span] == Shown(run[j].phase)
    decreases i - j
  {
    hide Inv, Next, Init, Shown, Emit;
    LandsOutside(c, run, j);
    ScheduleKeeps(c, run, i - 1);
    if j + 1 < i {
      ShowsLast(c, run, j, i - 1);
      assert Next(c, run[i - 1], run[i - 1 + 1]);
      StepKeepsShown(c, run[0], run[i - 1], run[i], run[j].phase.ids);
      assert !Lands(c, run, i - 1);
    } else {
      EmitOfJournaled(c, run[0], run[j], run[i]);
    }
  }

  lemma LandsOutside(c: Config, run: seq<State>, j: nat)
    requires Lands(c, run, j)
    ensures run[j].phase.Outside?
  {
  }

  lemma EmitOfJournaled(c: Config, first: State, s: State, s': State)
    requires Inv(c, first, s) && Emit(c, s, s')
    ensures s.phase.Outside? && s'.journal.ids == Some(s.phase.ids)
  {
  }

  // ---- emitting again

  predicate AfterEmit(p: Phase) {
    p.Emitted? || p.Finished?
  }

  lemma StepAfterEmit(c: Config, s: State, s': State)
    requires Next(c, s, s') && AfterEmit(s.phase)
    ensures AfterEmit(s'.phase) || s'.phase.Down?
  {
  }

  lemma {:induction false} FailsBetween(c: Config, run: seq<State>, j: nat, n: nat) returns (d: nat)
    requires Schedule(c, run) && j < n < |run| && AfterEmit(run[j].phase) && !AfterEmit(run[n].phase)
    ensures j < d <= n && run[d].phase.Down?
    decreases n - j
  {
    hide Next;
    assert Next(c, run[j], run[j + 1]);
    StepAfterEmit(c, run[j], run[j + 1]);
    if run[j + 1].phase.Down? {
      d := j + 1;
    } else {
      d := FailsBetween(c, run, j + 1, n);
    }
  }

  /**
   An emission that lands again shows a block entered after the one shown before was left; so it leaves the
   observation as it was exactly when the clock stood still from the entering of the one to the leaving of the other.
   */
  lemma ReEmitExactly(c: Config, run: seq<State>, j: nat, i: nat)
    requires Schedule(c, run) && LastLanding(c, run, j, i) && Lands(c, run, i)
    ensures run[i].phase.ids == run[j].phase.ids && run[j].phase.endedAt <= run[i].phase.startedAt
    ensures run[i + 1].store == run[i].store <==> run[i].phase.endedAt == run[j].phase.startedAt
  {
    ShowsLast(c, run, j, i);
    ScheduleKeeps(c, run, i);
    EndIsPast(c, run, j);
    EndIsPast(c, run, i);
    var d := FailsBetween(c, run, j + 1, i);
    LaterIsEnteredSince(c, run, d, i);
    ClockRuns(c, run, j, d);
    hide Schedule, Inv;
    var id := run[i].phase.ids.span;
    assert run[i + 1].store[id] == Shown(run[i].phase);
    assert Shown(run[i].phase) == Shown(run[j].phase) ==> run[i].store[id := Shown(run[i].phase)] == run[i].store;
  }

  // ---- an execution whose boundary moves

  /** A boundary that landed with the times of the work, and is shown with later ones once its journal write is lost. */
  lemma ReEmitMovesTimes(trace: TraceId, span: SpanId, began: nat, ended: nat, later: nat) returns (run: seq<State>)
    requires began < ended < later
    ensures Schedule(Config(true, true), run) && |run| == 19 && run[18].phase.Finished?
    ensures WorkJournaled(run, 6) && run[6].phase.startedAt == began && run[6].clock == ended
    ensures run[9].store == map[span := Root(trace, began, ended)]
    ensures run[18].store == map[span := Root(trace, later, later)]
  {
    var c, ids := Config(true, true), Ids(Some(trace), span);
    var first := FirstAttempt(trace, span, began, ended);
    var again := SecondAttempt(trace, span, began, ended, later);
    run := first + again;
    forall i | 0 <= i < |run| - 1 ensures Next(c, run[i], run[i + 1]) {
      if i < 9 {
        assert Next(c, first[i], first[i + 1]);
      } else if i == 9 {
        assert Crash(first[9], again[0]);
      } else {
        assert Next(c, again[i - 10], again[i - 10 + 1]);
      }
    }
  }

  lemma FirstAttempt(trace: TraceId, span: SpanId, began: nat, ended: nat) returns (run: seq<State>)
    requires began < ended
    ensures |run| == 10 && Init(run[0]) && WorkJournaled(run, 6)
    ensures run[6].phase == Worked(Ids(Some(trace), span), None, began) && run[6].clock == ended
    ensures run[9] == State(Journal(Some(Ids(Some(trace), span)), true, None),
                            Emitted(Ids(Some(trace), span), Some(span)),
                            None, None, map[span := Root(trace, began, ended)], ended, 1, 0)
    ensures forall i :: 0 <= i < 9 ==> Next(Config(true, true), run[i], run[i + 1])
  {
    var c, ids := Config(true, true), Ids(Some(trace), span);
    var s0 := State(Journal(None, false, None), Down, None, None, map[], began, 0, 0);
    var s1 := s0.(phase := Begun);
    var s2 := s1.(phase := Minted(ids));
    var s3 := s2.(phase := Ready(ids), journal := Journal(Some(ids), false, None));
    var s4 := s3.(phase := Inside(ids, None, began), ambient := Parent(ids));
    var s5 := s4.(clock := ended);
    var s6 := s5.(phase := Worked(ids, None, began));
    var s7 := s6.(phase := Returned(ids, None, began), journal := Journal(Some(ids), true, None));
    var s8 := s7.(phase := Outside(ids, began, ended), ambient := None);
    var s9 := s8.(phase := Emitted(ids, Some(span)), store := map[span := Root(trace, began, ended)], emissions := 1);
    assert Begin(s0, s1) && Mint(c, s1, s2) && JournalMint(s2, s3) && Enter(c, s3, s4) && Tick(s4, s5);
    assert FinishWork(s5, s6) && JournalWork(s6, s7) && Leave(s7, s8) && Emit(c, s8, s9);
    run := [s0, s1, s2, s3, s4, s5, s6, s7, s8, s9];
    hide Begin, Mint, JournalMint, Enter, Tick, FinishWork, JournalWork, Leave, Emit;
  }

  lemma SecondAttempt(trace: TraceId, span: SpanId, began: nat, ended: nat, later: nat) returns (run: seq<State>)
    requires began < ended < later
    ensures |run| == 9 && run[8].phase.Finished? && run[8].store == map[span := Root(trace, later, later)]
    ensures run[0] == State(Journal(Some(Ids(Some(trace), span)), true, None), Down, None, None,
                            map[span := Root(trace, began, ended)], ended, 1, 1)
    ensures forall i :: 0 <= i < 8 ==> Next(Config(true, true), run[i], run[i + 1])
  {
    var c, ids := Config(true, true), Ids(Some(trace), span);
    var shown := map[span := Root(trace, began, ended)];
    var s0 := State(Journal(Some(ids), true, None), Down, None, None, shown, ended, 1, 1);
    var s1 := s0.(clock := later);
    var s2 := s1.(phase := Begun);
    var s3 := s2.(phase := Ready(ids));
    var s4 := s3.(phase := Inside(ids, None, later), ambient := Parent(ids));
    var s5 := s4.(phase := Returned(ids, None, later));
    var s6 := s5.(phase := Outside(ids, later, later), ambient := None);
    var s7 := s6.(phase := Emitted(ids, Some(span)), store := map[span := Root(trace, later, later)], emissions := 2);
    var s8 := s7.(phase := Finished, journal := Journal(Some(ids), true, Some(Some(span))));
    assert s6.store[span := Root(trace, later, later)] == s7.store;
    assert Tick(s0, s1) && Begin(s1, s2) && ReplayMint(s2, s3) && Enter(c, s3, s4) && ReplayWork(s4, s5);
    assert Leave(s5, s6) && Emit(c, s6, s7) && JournalEmit(s7, s8);
    run := [s0, s1, s2, s3, s4, s5, s6, s7, s8];
    hide Tick, Begin, ReplayMint, Enter, ReplayWork, Leave, Emit, JournalEmit;
  }
}
