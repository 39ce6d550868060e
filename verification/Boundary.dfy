/**
 The replay-safe trace boundary: a handler's ids are minted once and journaled, made the ambient
 parent of its work without exporting anything, and the boundary observation is emitted from its own
 journaled step. The handler may die, or raise and be retried, between any two steps; a step's effect
 may have happened and its journal write still be lost.
 */
module Boundary {
  import opened Options
  import opened Basics

  type SpanId = nat
  type TraceId = nat

  /** What `mint_boundary_ids` returns; the trace id is None when tracing is off or minting it failed. */
  datatype Ids = Ids(trace: Option<TraceId>, span: SpanId)

  /** The ambient parent a span opened now would take, if any. */
  type Ambient = Option<(TraceId, SpanId)>

  /** What the store keeps under one observation id: writing it again replaces it. */
  datatype Observation =
    | Child(parent: Ambient)
    | Root(trace: TraceId, startTime: nat, endTime: nat)

  /** The journal: what a replay is handed back instead of running the step. */
  datatype Journal = Journal(ids: Option<Ids>, work: bool, emitted: Option<Option<SpanId>>)

  /** Where the handler stands. `Minted`, `Worked` and `Emitted` have had their effect and not their journal write. */
  datatype Phase =
    | Down
    | Begun
    | Minted(ids: Ids)
    | Ready(ids: Ids)
    | Inside(ids: Ids, saved: Ambient, startedAt: nat)
    | Worked(ids: Ids, saved: Ambient, startedAt: nat)
    | Returned(ids: Ids, saved: Ambient, startedAt: nat)
    | Outside(ids: Ids, startedAt: nat, endedAt: nat)
    | Emitted(ids: Ids, answer: Option<SpanId>)
    | Finished

  datatype State = State(
    journal: Journal,
    phase: Phase,
    ambient: Ambient,
    outer: Ambient,          // the context the handler was entered in
    store: map<SpanId, Observation>,
    clock: nat,
    emissions: nat,          // times the boundary's own step has run
    lost: nat)               // times its journal write was lost

  /** Whether tracing is configured, and whether the context library is there to attach with. */
  datatype Config = Config(enabled: bool, attaches: bool)

  /** The primitives do something: tracing is on and a trace id was minted. */
  predicate Traced(c: Config, ids: Ids) {
    c.enabled && ids.trace.Some?
  }

  function Parent(ids: Ids): Ambient
    requires ids.trace.Some?
  {
    Some((ids.trace.value, ids.span))
  }

  // ---- the steps

  predicate Init(s: State) {
    && s.journal == Journal(None, false, None)
    && s.phase == Down && s.ambient == s.outer && s.emissions == 0 && s.lost == 0
  }

  /** An attempt begins, in whatever context the server calls the handler in. */
  predicate Begin(s: State, s': State) {
    && s.phase.Down?
    && s' == s.(phase := Begun, ambient := s'.outer, outer := s'.outer)
  }

  /** The mint step's body: a span id the store has not seen. */
  predicate Mint(c: Config, s: State, s': State) {
    && s.phase.Begun? && s.journal.ids.None?
    && s'.phase.Minted? && s'.phase.ids.span !in s.store
    && (s'.phase.ids.trace.Some? ==> c.enabled)
    && s' == s.(phase := s'.phase)
  }

  predicate JournalMint(s: State, s': State) {
    && s.phase.Minted?
    && s' == s.(phase := Ready(s.phase.ids), journal := s.journal.(ids := Some(s.phase.ids)))
  }

  predicate ReplayMint(s: State, s': State) {
    && s.phase.Begun? && s.journal.ids.Some?
    && s' == s.(phase := Ready(s.journal.ids.value))
  }

  /** `boundary_parent` is entered: the ids become the ambient parent, and nothing is exported. */
  predicate Enter(c: Config, s: State, s': State) {
    && s.phase.Ready?
    && s' == s.(phase := Inside(s.phase.ids, s.ambient, s.clock),
                ambient := if Traced(c, s.phase.ids) && c.attaches then Parent(s.phase.ids) else s.ambient)
  }

  /** The work opens a span, which takes the ambient parent and is exported when it ends. */
  predicate EmitChild(s: State, s': State, id: SpanId) {
    && s.phase.Inside? && !s.journal.work
    && id !in s.store && id != s.phase.ids.span
    && s' == s.(store := s.store[id := Child(s.ambient)])
  }

  predicate FinishWork(s: State, s': State) {
    && s.phase.Inside? && !s.journal.work
    && s' == s.(phase := Worked(s.phase.ids, s.phase.saved, s.phase.startedAt))
  }

  predicate JournalWork(s: State, s': State) {
    && s.phase.Worked?
    && s' == s.(phase := Returned(s.phase.ids, s.phase.saved, s.phase.startedAt), journal := s.journal.(work := true))
  }

  predicate ReplayWork(s: State, s': State) {
    && s.phase.Inside? && s.journal.work
    && s' == s.(phase := Returned(s.phase.ids, s.phase.saved, s.phase.startedAt))
  }

  /** The block is left: `finally` stamps the end and detaches. */
  predicate Leave(s: State, s': State) {
    && s.phase.Returned?
    && s' == s.(phase := Outside(s.phase.ids, s.phase.startedAt, s.clock), ambient := s.phase.saved)
  }

  /** The emit step's body. The store may have taken the batch and the call still have raised. */
  predicate Emit(c: Config, s: State, s': State) {
    && s.phase.Outside? && s.journal.emitted.None?
    && var ids := s.phase.ids;
       && s'.phase.Emitted? && s'.phase.ids == ids
       && (if Traced(c, ids)
           then var landed := s.store[ids.span := Root(ids.trace.value, s.phase.startedAt, s.phase.endedAt)];
                && (s'.store == s.store || s'.store == landed)
                && (s'.phase.answer == None || (s'.phase.answer == Some(ids.span) && s'.store == landed))
           else s'.store == s.store && s'.phase.answer == None)
       && s' == s.(phase := s'.phase, store := s'.store, emissions := s.emissions + 1)
  }

  predicate JournalEmit(s: State, s': State) {
    && s.phase.Emitted?
    && s' == s.(phase := Finished, journal := s.journal.(emitted := Some(s.phase.answer)))
  }

  predicate ReplayEmit(s: State, s': State) {
    && s.phase.Outside? && s.journal.emitted.Some?
    && s' == s.(phase := Finished)
  }

  predicate InBlock(p: Phase) {
    p.Inside? || p.Worked? || p.Returned?
  }

  /** The handler raises: an open block's `finally` runs on the way out. */
  predicate Raise(s: State, s': State) {
    && !s.phase.Down?
    && s' == s.(phase := Down,
                ambient := if InBlock(s.phase) then s.phase.saved else s.ambient,
                lost := if s.phase.Emitted? then s.lost + 1 else s.lost)
  }

  /** The process dies: its context dies with it. */
  predicate Crash(s: State, s': State) {
    && !s.phase.Down?
    && s' == s.(phase := Down, ambient := s.outer, lost := if s.phase.Emitted? then s.lost + 1 else s.lost)
  }

  predicate Tick(s: State, s': State) {
    s'.clock > s.clock && s' == s.(clock := s'.clock)
  }

  ghost predicate Next(c: Config, s: State, s': State) {
    || Begin(s, s')
    || Mint(c, s, s') || JournalMint(s, s') || ReplayMint(s, s')
    || Enter(c, s, s')
    || (exists id :: EmitChild(s, s', id)) || FinishWork(s, s') || JournalWork(s, s') || ReplayWork(s, s')
    || Leave(s, s')
    || Emit(c, s, s') || JournalEmit(s, s') || ReplayEmit(s, s')
    || Raise(s, s') || Crash(s, s') || Tick(s, s')
  }

  /** A schedule: any interleaving of the handler's steps with crashes, raises and retries. */
  ghost predicate Schedule(c: Config, run: seq<State>) {
    && run != [] && Init(run[0])
    && forall i :: 0 <= i < |run| - 1 ==> Next(c, run[i], run[i + 1])
  }

  // ---- what every step keeps

  predicate Holding(p: Phase) {
    p.Ready? || InBlock(p) || p.Outside? || p.Emitted?
  }

  /** What an observation the schedule added is: the boundary under the journaled id, or a child of it. */
  predicate Ours(c: Config, ids: Ids, id: SpanId, o: Observation) {
    match o
    case Root(t, from, to) => id == ids.span && Traced(c, ids) && ids.trace == Some(t) && from <= to
    case Child(p) => id != ids.span && (Traced(c, ids) && c.attaches ==> p == Parent(ids))
  }

  /** Identity: the ids in use are the journaled ones, and the store had not seen the span id. */
  ghost predicate IdsKept(first: State, s: State) {
    && (Holding(s.phase) ==> s.journal.ids == Some(s.phase.ids))
    && (s.phase.Minted? ==> s.journal.ids.None? && s.phase.ids.span !in s.store)
    && (s.journal.ids.None? ==> s.store == first.store && !s.journal.work && s.journal.emitted.None?)
    && (s.journal.ids.Some? ==> s.journal.ids.value.span !in first.store)
  }

  /** Context: outside the block the ambient parent is the one the handler was entered in. */
  predicate ContextKept(c: Config, s: State) {
    if InBlock(s.phase) then
      && s.phase.saved == s.outer && s.phase.startedAt <= s.clock
      && (Traced(c, s.phase.ids) && c.attaches ==> s.ambient == Parent(s.phase.ids))
    else
      s.ambient == s.outer && (s.phase.Outside? ==> s.phase.startedAt <= s.phase.endedAt)
  }

  /** Store: what was there is there still, and what was added is ours. */
  ghost predicate StoreKept(c: Config, first: State, s: State) {
    && (forall id :: id in first.store ==> id in s.store && s.store[id] == first.store[id])
    && (forall id :: id in s.store && id !in first.store ==>
          s.journal.ids.Some? && Ours(c, s.journal.ids.value, id, s.store[id]))
  }

  /** Emission: one run of the step for each lost journal write and one more; an answer says it landed. */
  predicate EmissionKept(s: State) {
    && s.emissions == s.lost + (if s.phase.Emitted? || s.journal.emitted.Some? then 1 else 0)
    && (s.phase.Emitted? ==> s.journal.emitted.None? && Landed(s, s.phase.answer))
    && (s.journal.emitted.Some? ==> Landed(s, s.journal.emitted.value))
  }

  predicate Landed(s: State, answer: Option<SpanId>) {
    answer.Some? ==>
      && s.journal.ids.Some? && answer.value == s.journal.ids.value.span
      && answer.value in s.store && s.store[answer.value].Root?
  }

  ghost predicate Inv(c: Config, first: State, s: State) {
    IdsKept(first, s) && ContextKept(c, s) && StoreKept(c, first, s) && EmissionKept(s)
  }

  lemma InitKeeps(c: Config, s: State)
    requires Init(s)
    ensures Inv(c, s, s)
  {
  }

  lemma MintKeeps(c: Config, first: State, s: State, s': State)
    requires Inv(c, first, s)
    requires Begin(s, s') || Mint(c, s, s') || JournalMint(s, s') || ReplayMint(s, s') || Tick(s, s')
    ensures Inv(c, first, s')
  {
  }

  lemma BlockKeeps(c: Config, first: State, s: State, s': State)
    requires Inv(c, first, s)
    requires Enter(c, s, s') || FinishWork(s, s') || JournalWork(s, s') || ReplayWork(s, s') || Leave(s, s')
    ensures Inv(c, first, s')
  {
  }

  lemma ChildKeeps(c: Config, first: State, s: State, s': State, id: SpanId)
    requires Inv(c, first, s) && EmitChild(s, s', id)
    ensures Inv(c, first, s')
  {
  }

  lemma EmitKeeps(c: Config, first: State, s: State, s': State)
    requires Inv(c, first, s)
    requires Emit(c, s, s') || JournalEmit(s, s') || ReplayEmit(s, s')
    ensures Inv(c, first, s')
  {
  }

  lemma FailureKeeps(c: Config, first: State, s: State, s': State)
    requires Inv(c, first, s) && (Raise(s, s') || Crash(s, s'))
    ensures Inv(c, first, s')
  {
  }

  lemma StepKeeps(c: Config, first: State, s: State, s': State)
    requires Inv(c, first, s) && Next(c, s, s')
    ensures Inv(c, first, s')
  {
    hide Inv, Begin, Mint, JournalMint, ReplayMint, Tick, Enter, FinishWork, JournalWork, ReplayWork, Leave;
    hide Emit, JournalEmit, ReplayEmit, Raise, Crash, EmitChild;
    if Begin(s, s') || Mint(c, s, s') || JournalMint(s, s') || ReplayMint(s, s') || Tick(s, s') {
      MintKeeps(c, first, s, s');
    } else if Enter(c, s, s') || FinishWork(s, s') || JournalWork(s, s') || ReplayWork(s, s') || Leave(s, s') {
      BlockKeeps(c, first, s, s');
    } else if Emit(c, s, s') || JournalEmit(s, s') || ReplayEmit(s, s') {
      EmitKeeps(c, first, s, s');
    } else if Raise(s, s') || Crash(s, s') {
      FailureKeeps(c, first, s, s');
    } else {
      var id :| EmitChild(s, s', id);
      ChildKeeps(c, first, s, s', id);
    }
  }

  lemma {:induction false} ScheduleKeeps(c: Config, run: seq<State>, i: nat)
    requires Schedule(c, run) && i < |run|
    ensures Inv(c, run[0], run[i])
    decreases i
  {
    hide Inv, Next, Init;
    if i == 0 {
      InitKeeps(c, run[0]);
    } else {
      ScheduleKeeps(c, run, i - 1);
      assert Next(c, run[i - 1], run[i - 1 + 1]);
      StepKeeps(c, run[0], run[i - 1], run[i]);
    }
  }

  // ---- over every schedule

  /** The boundary observations the schedule has added. */
  function Roots(first: State, s: State): set<SpanId> {
    set id | id in s.store && id !in first.store && s.store[id].Root?
  }

  /**
   However the handler is crashed, retried and replayed: at most one boundary observation is added, its
   id is the journaled span id, and every span of the work has the journaled ids for its parent.
   */
  lemma AtMostOneBoundary(c: Config, run: seq<State>, i: nat)
    requires Schedule(c, run) && i < |run|
    ensures var first, s := run[0], run[i];
      && |Roots(first, s)| <= 1
      && (forall id :: id in Roots(first, s) ==> s.journal.ids.Some? && id == s.journal.ids.value.span)
      && (forall id :: id in s.store && id !in first.store && s.store[id].Child? ==>
            s.journal.ids.Some? && (Traced(c, s.journal.ids.value) && c.attaches ==>
              s.store[id].parent == Parent(s.journal.ids.value)))
      && (s.journal.ids.Some? && !Traced(c, s.journal.ids.value) ==> Roots(first, s) == {})
  {
    ScheduleKeeps(c, run, i);
    var first, s := run[0], run[i];
    if s.journal.ids.Some? {
      assert Roots(first, s) <= {s.journal.ids.value.span};
      SubsetCount(Roots(first, s), {s.journal.ids.value.span});
    } else {
      assert Roots(first, s) == {};
    }
  }

  /** Outside the block the ambient context is the one the handler was entered in, however it was left. */
  lemma ContextIsRestored(c: Config, run: seq<State>, i: nat)
    requires Schedule(c, run) && i < |run|
    ensures !InBlock(run[i].phase) ==> run[i].ambient == run[i].outer
  {
    ScheduleKeeps(c, run, i);
  }

  /** The emit step runs once more than its journal write is lost, and an answer it gives is a landed boundary. */
  lemma EmittedOncePerLoss(c: Config, run: seq<State>, i: nat)
    requires Schedule(c, run) && i < |run|
    ensures var s := run[i];
      && s.emissions <= s.lost + 1
      && (s.journal.emitted.Some? ==> s.emissions == s.lost + 1)
      && (s.journal.emitted.Some? && s.journal.emitted.value.Some? ==>
            s.journal.ids.Some? && s.journal.emitted.value == Some(s.journal.ids.value.span)
            && Roots(run[0], s) == {s.journal.ids.value.span})
  {
    ScheduleKeeps(c, run, i);
    var s := run[i];
    if s.journal.emitted.Some? && s.journal.emitted.value.Some? {
      var id := s.journal.ids.value.span;
      assert id in Roots(run[0], s);
      assert Roots(run[0], s) == {id};
    }
  }

  /** A journaled step is never run again: the journal only grows. */
  predicate Extends(j: Journal, j': Journal) {
    && (j.ids.Some? ==> j'.ids == j.ids)
    && (j.work ==> j'.work)
    && (j.emitted.Some? ==> j'.emitted == j.emitted)
  }

  lemma StepExtends(c: Config, first: State, s: State, s': State)
    requires Inv(c, first, s) && Next(c, s, s')
    ensures Extends(s.journal, s'.journal)
    ensures s.journal.work && s.journal.emitted.Some? ==> s'.store == s.store
  {
  }

  /**
   The ids handed to every replay are the ones journaled first; and once the work and the emit are
   journaled, replaying the handler any number of times adds nothing to the store.
   */
  lemma {:induction false} ReplaysAddNothing(c: Config, run: seq<State>, i: nat, j: nat)
    requires Schedule(c, run) && i <= j < |run|
    ensures Extends(run[i].journal, run[j].journal)
    ensures run[i].journal.work && run[i].journal.emitted.Some? ==> run[j].store == run[i].store
    decreases j - i
  {
    hide Next, Inv, Init;
    if i < j {
      ReplaysAddNothing(c, run, i, j - 1);
      ScheduleKeeps(c, run, j - 1);
      assert Next(c, run[j - 1], run[j - 1 + 1]);
      StepExtends(c, run[0], run[j - 1], run[j]);
    }
  }

  // ---- the hazard these steps remove

  /**
   The same handler under `observed_trace`: the block is a recording span minted afresh, which is exported when
   the block is left.
   */
  predicate LeaveObserved(s: State, s': State, id: SpanId) {
    && s.phase.Returned? && s.phase.ids.trace.Some? && id !in s.store
    && s' == s.(phase := Outside(s.phase.ids, s.phase.startedAt, s.clock), ambient := s.phase.saved,
                store := s.store[id := Root(s.phase.ids.trace.value, s.phase.startedAt, s.clock)])
  }

  ghost predicate Observed(s: State, s': State) {
    exists id :: LeaveObserved(s, s', id)
  }

  ghost predicate NextObserved(c: Config, s: State, s': State) {
    Observed(s, s') || (Next(c, s, s') && !Leave(s, s'))
  }

  /** How often the block has been left by step `i`, on first entries and on replays. */
  ghost function Exits(run: seq<State>, i: nat): nat
    requires i < |run|
  {
    if i == 0 then 0 else Exits(run, i - 1) + if Observed(run[i - 1], run[i]) then 1 else 0
  }

  /** No step takes an observation away, or makes a boundary observation another kind. */
  lemma RootsStay(c: Config, first: State, s: State, s': State)
    requires NextObserved(c, s, s')
    ensures Roots(first, s) <= Roots(first, s')
    ensures forall id :: id in s.store ==> id in s'.store
  {
  }

  lemma ObservedAdds(c: Config, first: State, s: State, s': State)
    requires Observed(s, s') && forall id :: id in first.store ==> id in s.store
    ensures |Roots(first, s')| > |Roots(first, s)|
  {
    var id :| LeaveObserved(s, s', id);
    assert id in Roots(first, s') && id !in Roots(first, s);
    assert Roots(first, s) + {id} <= Roots(first, s');
    SubsetCount(Roots(first, s) + {id}, Roots(first, s'));
  }

  /** With it, one execution shows at least one boundary observation for every time its block is left. */
  lemma {:induction false} EveryExitShows(c: Config, run: seq<State>, i: nat)
    requires run != [] && forall j :: 0 <= j < |run| - 1 ==> NextObserved(c, run[j], run[j + 1])
    requires i < |run|
    ensures |Roots(run[0], run[i])| >= Exits(run, i)
    ensures forall id :: id in run[0].store ==> id in run[i].store
  {
    hide NextObserved, Observed, Roots;
    if i > 0 {
      EveryExitShows(c, run, i - 1);
      assert NextObserved(c, run[i - 1], run[i - 1 + 1]);
      RootsStay(c, run[0], run[i - 1], run[i]);
      SubsetCount(Roots(run[0], run[i - 1]), Roots(run[0], run[i]));
      if Observed(run[i - 1], run[i]) {
        ObservedAdds(c, run[0], run[i - 1], run[i]);
      }
    }
  }
}
