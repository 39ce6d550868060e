/**
 A handler as the convention has it written: `mint_boundary_ids` in a journaled step, `boundary_parent`
 around the work, `emit_boundary` in a journaled step of its own. Every attempt is a stretch of a schedule
 of the boundary's steps, so what is proved of every schedule holds of every history of attempts.
 */
module BoundaryHandler {
  import opened Options
  import opened Boundary

  /** What befalls the handler after one of its steps. */
  datatype Fate = GoesOn | Raises | Dies

  /** What becomes of the batch `emit_boundary` sends. */
  datatype Sending = Lands | LandsAndRaises | Lost

  // ---- what the primitives hand on, in their own words

  /** The ids the handler goes on with: those journaled before, or those minted now. */
  function IdsFor(c: Config, journal: Journal, trace: Option<TraceId>, span: SpanId): Ids {
    match journal.ids
    case Some(ids) => ids
    case None => Ids(if c.enabled then trace else None, span)
  }

  /** The parent a span of the work takes: the journaled ids, where tracing is on and can be attached. */
  function ParentFor(c: Config, ids: Ids, context: Ambient): Ambient {
    if c.enabled && c.attaches && ids.trace.Some? then Some((ids.trace.value, ids.span)) else context
  }

  /** What one run of the emit step leaves in the store. */
  function BoundaryOf(c: Config, ids: Ids, sending: Sending, from: nat, to: nat): map<SpanId, Observation> {
    if c.enabled && ids.trace.Some? && sending != Lost then map[ids.span := Root(ids.trace.value, from, to)] else map[]
  }

  function AnswerOf(c: Config, ids: Ids, sending: Sending): Option<SpanId> {
    if c.enabled && ids.trace.Some? && sending == Lands then Some(ids.span) else None
  }

  lemma SpanInUse(c: Config, journal: Journal, trace: Option<TraceId>, span: SpanId)
    ensures IdsFor(c, journal, trace, span).span == if journal.ids.Some? then journal.ids.value.span else span
    ensures journal.ids.Some? ==> IdsFor(c, journal, trace, span) == journal.ids.value
  {
  }

  /** The journal a finished attempt leaves. */
  function JournalLeft(c: Config, journal: Journal, trace: Option<TraceId>, span: SpanId, sending: Sending): Journal {
    Journal(Some(IdsFor(c, journal, trace, span)), true,
            if journal.emitted.Some? then journal.emitted
            else Some(AnswerOf(c, IdsFor(c, journal, trace, span), sending)))
  }

  /** The spans it adds: none when the work was journaled before. */
  function SpansLeft(c: Config, journal: Journal, trace: Option<TraceId>, span: SpanId, context: Ambient,
                     spans: seq<SpanId>): map<SpanId, Observation>
  {
    if journal.work then map[]
    else map id | id in spans :: Child(ParentFor(c, IdsFor(c, journal, trace, span), context))
  }

  /** The boundary it adds: none when the emit was journaled before. */
  function BoundaryLeft(c: Config, journal: Journal, trace: Option<TraceId>, span: SpanId, sending: Sending,
                        from: nat, to: nat): map<SpanId, Observation>
  {
    if journal.emitted.Some? then map[] else BoundaryOf(c, IdsFor(c, journal, trace, span), sending, from, to)
  }

  /** With tracing on, of a traced execution whose emit is not journaled: a first attempt, or one after a loss. */
  lemma TracedAttempt(j: Journal, ids: Ids, trace: Option<TraceId>, span: SpanId, context: Ambient,
                      spans: seq<SpanId>, sending: Sending, from: nat, to: nat)
    requires ids == (if j.ids.Some? then j.ids.value else Ids(trace, span)) && ids.trace.Some? && j.emitted.None?
    ensures var c, root := Config(true, true), Root(ids.trace.value, from, to);
      && JournalLeft(c, j, trace, span, sending)
         == Journal(Some(ids), true, Some(if sending == Lands then Some(ids.span) else None))
      && SpansLeft(c, j, trace, span, context, spans)
         == (if j.work then map[] else map id | id in spans :: Child(Some((ids.trace.value, ids.span))))
      && BoundaryLeft(c, j, trace, span, sending, from, to) == if sending == Lost then map[] else map[ids.span := root]
  {
  }

  /** A first attempt with tracing off, or without a trace. */
  lemma UntracedAttempt(c: Config, trace: Option<TraceId>, span: SpanId, context: Ambient, spans: seq<SpanId>,
                        sending: Sending, from: nat, to: nat)
    requires !c.enabled || trace.None?
    ensures var j := Journal(None, false, None);
      && JournalLeft(c, j, trace, span, sending) == Journal(Some(Ids(None, span)), true, Some(None))
      && SpansLeft(c, j, trace, span, context, spans) == (map id | id in spans :: Child(context))
      && BoundaryLeft(c, j, trace, span, sending, from, to) == map[]
  {
  }

  lemma ReplayedAttempt(c: Config, j: Journal, trace: Option<TraceId>, span: SpanId, context: Ambient,
                    spans: seq<SpanId>, sending: Sending, from: nat, to: nat)
    ensures j.ids.Some? && j.work && j.emitted.Some? ==>
      && JournalLeft(c, j, trace, span, sending) == j
      && SpansLeft(c, j, trace, span, context, spans) == map[]
      && BoundaryLeft(c, j, trace, span, sending, from, to) == map[]
  {
  }

  lemma NothingMore(store: map<SpanId, Observation>)
    ensures store + map[] == store
  {
  }

  lemma ScheduleGrows(c: Config, run: seq<State>, s: State)
    requires Schedule(c, run) && Next(c, run[|run| - 1], s)
    ensures Schedule(c, run + [s])
  {
    hide Next, Init;
    var longer := run + [s];
    forall i | 0 <= i < |longer| - 1 ensures Next(c, longer[i], longer[i + 1]) {
      if i < |run| - 1 {
        assert longer[i] == run[i] && longer[i + 1] == run[i + 1];
      }
    }
  }

  class Handler {
    const c: Config
    var journal: Journal
    var phase: Phase
    var ambient: Ambient
    var outer: Ambient
    var store: map<SpanId, Observation>
    var clock: nat
    var emissions: nat
    var lost: nat
    ghost var history: seq<State>

    ghost function Now(): State
      reads this
    {
      State(journal, phase, ambient, outer, store, clock, emissions, lost)
    }

    ghost predicate Valid()
      reads this
    {
      Schedule(c, history) && history[|history| - 1] == Now()
    }

    constructor (c: Config, store: map<SpanId, Observation>, outer: Ambient, clock: nat)
      ensures Valid() && this.c == c && this.store == store && phase == Down && |history| == 1
    {
      this.c, this.store, this.outer, this.ambient, this.clock := c, store, outer, outer, clock;
      journal, phase, emissions, lost := Journal(None, false, None), Down, 0, 0;
      new;
      history := [Now()];
    }

    /** The step just taken joins the history. */
    ghost method Took()
      requires Schedule(c, history) && Next(c, history[|history| - 1], Now())
      modifies this`history
      ensures Valid() && history == old(history) + [Now()]
    {
      ScheduleGrows(c, history, Now());
      history := history + [Now()];
    }

    method Begin(context: Ambient)
      requires Valid() && phase.Down?
      modifies this
      ensures Valid() && old(history) <= history && unchanged(`journal, `store, `clock)
      ensures phase == Begun && ambient == outer == context
    {
      phase, ambient, outer := Begun, context, context;
      assert Boundary.Begin(old(Now()), Now());
      Took();
    }

    /** Time passes between any two steps. */
    method Wait(now: nat)
      requires Valid() && clock < now
      modifies this
      ensures Valid() && old(history) <= history && clock == now
        && unchanged(`journal, `store, `phase, `ambient, `outer)
    {
      clock := now;
      assert Tick(old(Now()), Now());
      Took();
    }

    /** What befalls the handler here: nothing, a raise through any open block, or its death. */
    method Befall(fate: Fate) returns (goesOn: bool)
      requires Valid() && !phase.Down?
      modifies this
      ensures Valid() && old(history) <= history && unchanged(`journal, `store, `clock)
      ensures goesOn == fate.GoesOn?
      ensures if goesOn then unchanged(`phase, `ambient, `outer) else phase == Down
    {
      if fate.GoesOn? {
        return true;
      }
      lost := if phase.Emitted? then lost + 1 else lost;
      if fate.Raises? {
        ambient := if InBlock(phase) then phase.saved else ambient;
        phase := Down;
        assert Raise(old(Now()), Now());
      } else {
        ambient, phase := outer, Down;
        assert Crash(old(Now()), Now());
      }
      Took();
      goesOn := false;
    }

    /** The journaled step around `mint_boundary_ids`: run once, and handed back on every replay. */
    method MintIds(trace: Option<TraceId>, span: SpanId, fate: Fate) returns (goesOn: bool)
      requires Valid() && phase.Begun? && span !in store
      modifies this
      ensures Valid() && old(history) <= history && unchanged(`store, `clock)
      ensures goesOn == (old(journal).ids.Some? || fate.GoesOn?)
      ensures if goesOn then phase == Ready(IdsFor(c, old(journal), trace, span)) && unchanged(`ambient, `outer)
              else phase == Down
      ensures journal == if goesOn then old(journal).(ids := Some(IdsFor(c, old(journal), trace, span)))
                         else old(journal)
    {
      if journal.ids.Some? {
        phase := Ready(journal.ids.value);
        assert ReplayMint(old(Now()), Now());
        Took();
        return true;
      }
      var ids := Ids(if c.enabled then trace else None, span);
      phase := Minted(ids);
      assert Mint(c, old(Now()), Now());
      Took();
      goesOn := Befall(fate);
      if goesOn {
        ghost var before := Now();
        phase, journal := Ready(ids), journal.(ids := Some(ids));
        assert JournalMint(before, Now());
        Took();
      }
    }

    /** `boundary_parent` is entered. */
    method EnterParent()
      requires Valid() && phase.Ready?
      modifies this
      ensures Valid() && old(history) <= history && unchanged(`journal, `store, `outer, `clock)
      ensures phase == Inside(old(phase).ids, old(ambient), clock)
      ensures ambient == ParentFor(c, old(phase).ids, old(ambient))
    {
      var ids := phase.ids;
      phase := Inside(ids, ambient, clock);
      if c.enabled && ids.trace.Some? && c.attaches {
        ambient := Parent(ids);
      }
      assert Enter(c, old(Now()), Now());
      Took();
    }

    /** The spans of the work, one after another, each under the ambient parent. */
    method OpenSpans(spans: seq<SpanId>)
      requires Valid() && phase.Inside? && !journal.work
      requires forall i :: 0 <= i < |spans| ==> spans[i] !in store && spans[i] != phase.ids.span
      requires forall i, j :: 0 <= i < j < |spans| ==> spans[i] != spans[j]
      modifies this`store, this`history
      ensures Valid() && old(history) <= history
      ensures forall id :: id in store <==> id in old(store) || id in spans
      ensures forall id :: id in old(store) ==> id in store && store[id] == old(store)[id]
      ensures forall id :: id in store && id !in old(store) ==> store[id] == Child(ambient)
      ensures store == old(store) + map id | id in spans :: Child(ambient)
    {
      for i := 0 to |spans|
        invariant Valid() && old(history) <= history
        invariant forall id :: id in store <==> id in old(store) || id in spans[..i]
        invariant forall id :: id in old(store) ==> id in store && store[id] == old(store)[id]
        invariant forall id :: id in store && id !in old(store) ==> store[id] == Child(ambient)
      {
        ghost var before := Now();
        assert spans[i] !in spans[..i];
        store := store[spans[i] := Child(ambient)];
        assert EmitChild(before, Now(), spans[i]);
        Took();
        assert spans[..i + 1] == spans[..i] + [spans[i]];
      }
      assert spans[..|spans|] == spans;
    }

    /** The journaled work: it opens spans under the ambient parent, or is handed back. */
    method Work(spans: seq<SpanId>, fate: Fate) returns (goesOn: bool)
      requires Valid() && phase.Inside?
      requires forall i :: 0 <= i < |spans| ==> spans[i] !in store && spans[i] != phase.ids.span
      requires forall i, j :: 0 <= i < j < |spans| ==> spans[i] != spans[j]
      modifies this
      ensures Valid() && old(history) <= history && unchanged(`clock)
      ensures goesOn == (old(journal).work || fate.GoesOn?)
      ensures if goesOn
              then journal == old(journal).(work := true) && unchanged(`ambient, `outer)
                && phase == Returned(old(phase).ids, old(phase).saved, old(phase).startedAt)
              else phase == Down && journal == old(journal)
      ensures store == old(store) + if old(journal).work then map[] else map id | id in spans :: Child(old(ambient))
    {
      if journal.work {
        phase := Returned(phase.ids, phase.saved, phase.startedAt);
        assert ReplayWork(old(Now()), Now());
        Took();
        return true;
      }
      OpenSpans(spans);
      ghost var before := Now();
      phase := Worked(phase.ids, phase.saved, phase.startedAt);
      assert FinishWork(before, Now());
      Took();
      goesOn := Befall(fate);
      if goesOn {
        before := Now();
        phase, journal := Returned(phase.ids, phase.saved, phase.startedAt), journal.(work := true);
        assert JournalWork(before, Now());
        Took();
      }
    }

    /** The block is left: the end is stamped and the context handed back. */
    method LeaveParent()
      requires Valid() && phase.Returned?
      modifies this
      ensures Valid() && old(history) <= history && unchanged(`journal, `store, `outer, `clock)
      ensures phase == Outside(old(phase).ids, old(phase).startedAt, clock) && ambient == old(phase).saved
    {
      ambient, phase := phase.saved, Outside(phase.ids, phase.startedAt, clock);
      assert Leave(old(Now()), Now());
      Took();
    }

    /** `emit_boundary`: the boundary is written under the journaled span id; nothing it meets is raised. */
    method EmitBoundary(sending: Sending) returns (answer: Option<SpanId>)
      requires Valid() && phase.Outside? && journal.emitted.None?
      modifies this
      ensures Valid() && old(history) <= history && unchanged(`journal, `outer, `clock)
      ensures phase == Emitted(old(phase).ids, answer)
      ensures store == old(store) + BoundaryOf(c, old(phase).ids, sending, old(phase).startedAt, old(phase).endedAt)
      ensures answer == AnswerOf(c, old(phase).ids, sending)
    {
      var ids, from, to := phase.ids, phase.startedAt, phase.endedAt;
      answer := None;
      if c.enabled && ids.trace.Some? {
        if !sending.Lost? {
          store := store[ids.span := Root(ids.trace.value, from, to)];
        }
        if sending.Lands? {
          answer := Some(ids.span);
        }
      }
      emissions := emissions + 1;
      phase := Emitted(ids, answer);
      assert Emit(c, old(Now()), Now());
      Took();
    }

    /** The journaled step around `emit_boundary`. */
    method EmitStep(sending: Sending, fate: Fate) returns (goesOn: bool)
      requires Valid() && phase.Outside?
      modifies this
      ensures Valid() && old(history) <= history && unchanged(`clock)
      ensures goesOn == (old(journal).emitted.Some? || fate.GoesOn?)
      ensures if goesOn then phase == Finished && unchanged(`outer) else phase == Down
      ensures old(journal).emitted.Some? ==> journal == old(journal) && store == old(store)
      ensures old(journal).emitted.None? ==>
        && store == old(store) + BoundaryOf(c, old(phase).ids, sending, old(phase).startedAt, old(phase).endedAt)
        && journal == if goesOn then old(journal).(emitted := Some(AnswerOf(c, old(phase).ids, sending)))
                      else old(journal)
    {
      if journal.emitted.Some? {
        phase := Finished;
        assert ReplayEmit(old(Now()), Now());
        Took();
        return true;
      }
      var answer := EmitBoundary(sending);
      goesOn := Befall(fate);
      if goesOn {
        ghost var before := Now();
        phase, journal := Finished, journal.(emitted := Some(answer));
        assert JournalEmit(before, Now());
        Took();
      }
    }

    lemma Restored()
      requires Valid() && !InBlock(phase)
      ensures ambient == outer
    {
      hide Next, Init, Inv;
      ContextIsRestored(c, history, |history| - 1);
    }

    /**
     One attempt of the handler, in whatever context it is called, meeting one fate after each step. It adds
     to the history a stretch of a schedule, and where it ends the context is the one it was called in. One that
     nothing befalls finishes. With tracing on it leaves each span of its work under the ids minted first, and the
     boundary where the batch lands; untraced it leaves the spans where it was called; and one that replays a
     finished execution leaves everything as it was.
     */
    method Attempt(context: Ambient, trace: Option<TraceId>, span: SpanId, spans: seq<SpanId>, took: nat,
                   sending: Sending, fates: nat -> Fate)
      requires Valid() && phase.Down? && span !in store && span !in spans
      requires forall i :: 0 <= i < |spans| ==>
        spans[i] !in store && (journal.ids.Some? ==> spans[i] != journal.ids.value.span)
      requires forall i, j :: 0 <= i < j < |spans| ==> spans[i] != spans[j]
      modifies this
      ensures Valid() && old(history) <= history && (phase == Down || phase == Finished)
      ensures ambient == outer && (phase == Finished ==> outer == context)
      ensures (forall i :: fates(i).GoesOn?) ==> phase == Finished
      ensures phase == Finished ==> journal == JournalLeft(c, old(journal), trace, span, sending)
      ensures phase == Finished ==>
        store == old(store) + SpansLeft(c, old(journal), trace, span, context, spans)
                   + BoundaryLeft(c, old(journal), trace, span, sending, old(clock), old(clock) + took)
      ensures (forall i :: fates(i).GoesOn?) && c == Config(true, true) && old(journal).emitted.None? ==>
        var ids := if old(journal).ids.Some? then old(journal).ids.value else Ids(trace, span);
        ids.trace.Some? ==>
          && journal == Journal(Some(ids), true, Some(if sending == Lands then Some(ids.span) else None))
          && store == old(store)
               + (if old(journal).work then map[]
                  else map id | id in spans :: Child(Some((ids.trace.value, ids.span))))
               + (if sending == Lost then map[]
                  else map[ids.span := Root(ids.trace.value, old(clock), old(clock) + took)])
      ensures (&& (forall i :: fates(i).GoesOn?) && (!c.enabled || trace.None?)
               && old(journal) == Journal(None, false, None)) ==>
          && journal == Journal(Some(Ids(None, span)), true, Some(None))
          && store == old(store) + map id | id in spans :: Child(context)
      ensures (forall i :: fates(i).GoesOn?) && old(journal.ids.Some? && journal.work && journal.emitted.Some?) ==>
        journal == old(journal) && store == old(store)
    {
      hide Schedule, Next, JournalLeft, SpansLeft, BoundaryLeft;
      ghost var ids := if journal.ids.Some? then journal.ids.value else Ids(trace, span);
      if c == Config(true, true) && ids.trace.Some? && journal.emitted.None? {
        TracedAttempt(journal, ids, trace, span, context, spans, sending, clock, clock + took);
      }
      if !c.enabled || trace.None? {
        UntracedAttempt(c, trace, span, context, spans, sending, clock, clock + took);
      }
      ReplayedAttempt(c, journal, trace, span, context, spans, sending, clock, clock + took);
      NothingMore(store);
      Try(context, trace, span, spans, took, sending, fates);
      Restored();
    }

    /** Its steps, one after another. */
    method Try(context: Ambient, trace: Option<TraceId>, span: SpanId, spans: seq<SpanId>, took: nat,
               sending: Sending, fates: nat -> Fate)
      requires Valid() && phase.Down? && span !in store && span !in spans
      requires forall i :: 0 <= i < |spans| ==>
        spans[i] !in store && (journal.ids.Some? ==> spans[i] != journal.ids.value.span)
      requires forall i, j :: 0 <= i < j < |spans| ==> spans[i] != spans[j]
      modifies this
      ensures Valid() && old(history) <= history && (phase == Down || phase == Finished)
      ensures phase == Finished ==> outer == context
      ensures (forall i :: fates(i).GoesOn?) ==> phase == Finished
      ensures phase == Finished ==> journal == JournalLeft(c, old(journal), trace, span, sending)
      ensures phase == Finished ==>
        store == old(store) + SpansLeft(c, old(journal), trace, span, context, spans)
                   + BoundaryLeft(c, old(journal), trace, span, sending, old(clock), old(clock) + took)
    {
      hide Schedule, Traced, Parent, IdsFor, AnswerOf, BoundaryOf, ParentFor, Next;
      SpanInUse(c, journal, trace, span);
      var goesOn := Start(context, trace, span, fates);
      if goesOn {
        goesOn := Block(spans, fates(2));
      }
      if goesOn {
        NothingMore(store);
        Close(took, sending, fates);
      }
    }

    /** The block and the work in it. */
    method Block(spans: seq<SpanId>, fate: Fate) returns (goesOn: bool)
      requires Valid() && phase.Ready?
      requires forall i :: 0 <= i < |spans| ==> spans[i] !in store && spans[i] != phase.ids.span
      requires forall i, j :: 0 <= i < j < |spans| ==> spans[i] != spans[j]
      modifies this
      ensures Valid() && old(history) <= history && unchanged(`clock)
      ensures goesOn == (old(journal).work || fate.GoesOn?)
      ensures if goesOn
              then journal == old(journal).(work := true) && unchanged(`outer)
                && phase == Returned(old(phase).ids, old(ambient), old(clock))
              else phase == Down && journal == old(journal)
      ensures store == old(store)
        + if old(journal).work then map[] else map id | id in spans :: Child(ParentFor(c, old(phase).ids, old(ambient)))
    {
      hide Schedule, Next, ParentFor;
      EnterParent();
      goesOn := Work(spans, fate);
    }

    /** The attempt up to the ids. */
    method Start(context: Ambient, trace: Option<TraceId>, span: SpanId, fates: nat -> Fate) returns (goesOn: bool)
      requires Valid() && phase.Down? && span !in store
      modifies this
      ensures Valid() && old(history) <= history && unchanged(`store, `clock)
      ensures (fates(0).GoesOn? && fates(1).GoesOn?) ==> goesOn
      ensures if goesOn
              then phase == Ready(IdsFor(c, old(journal), trace, span)) && ambient == outer == context
                && journal == old(journal).(ids := Some(IdsFor(c, old(journal), trace, span)))
              else phase == Down
    {
      hide Schedule, IdsFor;
      Begin(context);
      goesOn := MintIds(trace, span, fates(0));
      if goesOn {
        goesOn := Befall(fates(1));
      }
    }

    /** The attempt from the work's end, which comes after the time it took. */
    method Close(took: nat, sending: Sending, fates: nat -> Fate)
      requires Valid() && phase.Returned?
      modifies this
      ensures Valid() && old(history) <= history && (phase == Down || phase == Finished)
      ensures (forall i :: fates(i).GoesOn?) ==> phase == Finished
      ensures phase == Finished ==> unchanged(`outer)
      ensures phase == Finished ==>
        if old(journal).emitted.Some? then journal == old(journal) && store == old(store)
        else
          && journal == old(journal).(emitted := Some(AnswerOf(c, old(phase).ids, sending)))
          && store == old(store)
               + BoundaryOf(c, old(phase).ids, sending, old(phase).startedAt, old(clock) + took)
    {
      hide Schedule, AnswerOf, BoundaryOf;
      if took > 0 {
        Wait(clock + took);
      }
      var goesOn := Befall(fates(3));
      if goesOn {
        LeaveParent();
        goesOn := Befall(fates(4));
      }
      if goesOn {
        goesOn := EmitStep(sending, fates(5));
      }
    }
  }
}
