/**
 Moving each row's own vector from the unnamed slot to the named space: `relocate` and the loop of
 `run_class`, over a collection that hands out pages in the order of the row ids. A run may be stopped
 by a failed request, an interrupt or a row that cannot be found again.
 */
module Backfill {
  import opened Options
  import Blankness

  type Vector = seq<real>

  /** One stored row. An empty vector is a slot not filled. */
  datatype Row = Row(id: nat, props: map<string, string>, legacy: Vector, named: map<string, Vector>)

  const URI := "uri"

  function UriOf(row: Row): string {
    if URI in row.props then row.props[URI] else ""
  }

  function Slot(row: Row, space: string): Vector {
    if space in row.named then row.named[space] else []
  }

  datatype Outcome = BlankSkipped | AmbiguousSkipped | AlreadyNamed | NoVector | WouldRelocate | Relocated

  datatype Flags = Flags(
    apply: bool, space: string, wanted: Option<set<string>>, offset: nat, limit: nat, verifyEvery: nat, pageSize: nat)

  /** The outcomes of `relocate`, in the order it decides them. */
  function OutcomeOf(row: Row, flags: Flags): Outcome {
    match Blankness.KindOf(UriOf(row))
    case Blank => BlankSkipped
    case Ambiguous => AmbiguousSkipped
    case Named =>
      if Slot(row, flags.space) != [] then AlreadyNamed
      else if row.legacy == [] then NoVector
      else if !flags.apply then WouldRelocate
      else Relocated
  }

  // ---- the same, in the row's own fields

  ghost predicate KindIs(row: Row, kind: Blankness.Kind) {
    Blankness.KindOf(if "uri" in row.props then row.props["uri"] else "") == kind
  }

  /** The row is among those the run is for: any, or those with one of the uris asked for. */
  ghost predicate InSelection(row: Row, flags: Flags): (r: bool)
    ensures r == Wanted(row, flags)
  {
    match flags.wanted
    case None => true
    case Some(uris) => (if "uri" in row.props then row.props["uri"] else "") in uris
  }

  ghost predicate HasUri(row: Row): (r: bool)
    ensures r == (UriOf(row) != "")
  {
    "uri" in row.props && |row.props["uri"]| > 0
  }

  /** The named space holds a vector. */
  ghost predicate Filled(row: Row, space: string) {
    space in row.named && row.named[space] != []
  }

  /** A named row with a vector that is not yet under the name. */
  ghost predicate ToMove(row: Row, space: string) {
    KindIs(row, Blankness.Named) && !Filled(row, space) && row.legacy != []
  }

  /** The outcome of a row says what it is: blank or undecided first, then done, without a vector, or to be moved. */
  lemma OutcomeExactly(row: Row, flags: Flags)
    ensures OutcomeOf(row, flags) == BlankSkipped <==> KindIs(row, Blankness.Blank)
    ensures OutcomeOf(row, flags) == AmbiguousSkipped <==> KindIs(row, Blankness.Ambiguous)
    ensures OutcomeOf(row, flags) == AlreadyNamed <==> KindIs(row, Blankness.Named) && Filled(row, flags.space)
    ensures OutcomeOf(row, flags) == NoVector <==>
      KindIs(row, Blankness.Named) && !Filled(row, flags.space) && row.legacy == []
    ensures OutcomeOf(row, flags) == WouldRelocate <==> ToMove(row, flags.space) && !flags.apply
    ensures OutcomeOf(row, flags) == Relocated <==> ToMove(row, flags.space) && flags.apply
  {
    UriExactly(row);
    hide UriOf, URI;
  }

  lemma UriExactly(row: Row)
    ensures UriOf(row) == if "uri" in row.props then row.props["uri"] else ""
  {
  }

  /** What the store holds after the row is put back: the whole object is replaced. */
  function Moved(row: Row, space: string): Row {
    Row(row.id, row.props, [], map[space := row.legacy])
  }

  // ---- a walk over the rows

  /** What happens to one request to write a row. */
  datatype Put = Done | FailedUnwritten | FailedWritten

  /** What the world does to a run, row by row. */
  datatype World = World(put: nat -> Put, found: nat -> bool, interrupts: nat -> bool)

  datatype Event = Sent(id: nat) | Checked(id: nat, ok: bool)

  datatype Stop = Going | Regressed | HttpFailed | Interrupted

  type Counts = map<Outcome, nat>

  datatype Walk = Walk(
    rows: seq<Row>, log: seq<Event>, counts: Counts, seen: nat, skipped: nat, withUri: nat,
    verifiedOnce: bool, since: nat, stop: Stop)

  function Start(rows: seq<Row>): Walk {
    Walk(rows, [], map[], 0, 0, 0, false, 0, Going)
  }

  function Get(counts: Counts, o: Outcome): nat {
    if o in counts then counts[o] else 0
  }

  function Wanted(row: Row, flags: Flags): bool {
    flags.wanted.None? || UriOf(row) in flags.wanted.value
  }

  /** Is the limit used up? A limit of nought is none. */
  predicate LimitReached(seen: nat, flags: Flags) {
    flags.limit > 0 && seen - flags.offset >= flags.limit
  }

  /** The row is counted once its outcome is known. */
  function Counted(w: Walk, row: Row, o: Outcome): Walk {
    w.(counts := w.counts[o := Get(w.counts, o) + 1], seen := w.seen + 1,
       withUri := w.withUri + if UriOf(row) != "" then 1 else 0)
  }

  function Verified(w: Walk, id: nat, world: World): Walk {
    w.(verifiedOnce := true, since := 0, log := w.log + [Checked(id, world.found(id))],
       stop := if world.found(id) then Going else Regressed)
  }

  /** After a row was written: the first is checked at once, and then every so many. */
  function AfterWrite(w: Walk, id: nat, flags: Flags, world: World): Walk {
    var w1 := w.(since := w.since + 1);
    if !w.verifiedOnce || (flags.verifyEvery > 0 && w1.since >= flags.verifyEvery) then Verified(w1, id, world) else w1
  }

  /** `relocate` and what the loop does with its outcome. */
  function Handled(w: Walk, i: nat, row: Row, flags: Flags, world: World): Walk
    requires i < |w.rows|
  {
    var o := OutcomeOf(row, flags);
    if o != Relocated then Counted(w, row, o)
    else
      var put := world.put(row.id);
      var w1 := w.(log := w.log + [Sent(row.id)],
                   rows := if put.FailedUnwritten? then w.rows else w.rows[i := Moved(row, flags.space)]);
      if put.Done? then AfterWrite(Counted(w1, row, o), row.id, flags, world) else w1.(stop := HttpFailed)
  }

  /** One turn of the inner loop, for the row at place `i`. */
  function Step(w: Walk, i: nat, row: Row, flags: Flags, world: World): Walk
    requires i < |w.rows|
  {
    if w.stop != Going then w
    else if world.interrupts(i) then w.(stop := Interrupted)
    else if !Wanted(row, flags) then w
    else if w.seen < flags.offset then w.(seen := w.seen + 1, skipped := w.skipped + 1)
    else if LimitReached(w.seen, flags) then w
    else Handled(w, i, row, flags, world)
  }

  /** The walk over the first `n` rows of the collection as it was. */
  function WalkOf(was: seq<Row>, n: nat, flags: Flags, world: World): (w: Walk)
    requires n <= |was|
    ensures |w.rows| == |was|
  {
    if n == 0 then Start(was) else Step(WalkOf(was, n - 1, flags, world), n - 1, was[n - 1], flags, world)
  }

  lemma WalkOn(was: seq<Row>, n: nat, flags: Flags, world: World)
    requires n < |was|
    ensures WalkOf(was, n + 1, flags, world) == Step(WalkOf(was, n, flags, world), n, was[n], flags, world)
  {
  }

  /** One turn changes at most the row at its own place, and no id. */
  lemma StepKeepsPlaces(w: Walk, i: nat, row: Row, flags: Flags, world: World)
    requires i < |w.rows| && w.rows[i].id == row.id
    ensures var rows := Step(w, i, row, flags, world).rows;
      |rows| == |w.rows| && forall j :: 0 <= j < |rows| ==>
        rows[j].id == w.rows[j].id && (j != i ==> rows[j] == w.rows[j])
  {
    hide Handled;
    HandledKeepsPlaces(w, i, row, flags, world);
  }

  lemma HandledKeepsPlaces(w: Walk, i: nat, row: Row, flags: Flags, world: World)
    requires i < |w.rows|
    ensures Handled(w, i, row, flags, world).rows in {w.rows, w.rows[i := Moved(row, flags.space)]}
  {
    hide OutcomeOf, Moved, UriOf, Get;
  }

  // ---- the store, and the run as the source has it

  predicate Sorted(rows: seq<Row>) {
    forall i, j :: 0 <= i < j < |rows| ==> rows[i].id < rows[j].id
  }

  /** How many rows lie at or before the cursor. */
  function Past(rows: seq<Row>, after: Option<nat>, i: nat): (n: nat)
    requires i <= |rows|
    ensures i <= n <= |rows|
    decreases |rows| - i
  {
    if after.Some? && i < |rows| && rows[i].id <= after.value then Past(rows, after, i + 1) else i
  }

  function PageOf(rows: seq<Row>, after: Option<nat>, limit: nat): seq<Row> {
    var start := Past(rows, after, 0);
    rows[start..if start + limit <= |rows| then start + limit else |rows|]
  }

  lemma {:induction false} PastLast(rows: seq<Row>, k: nat, i: nat)
    requires Sorted(rows) && i <= k < |rows|
    ensures Past(rows, Some(rows[k].id), i) == k + 1
    decreases k - i
  {
    if i < k {
      PastLast(rows, k, i + 1);
    } else if k + 1 < |rows| {
      assert rows[k].id < rows[k + 1].id;
    }
  }

  /** The walk changes no id, and nothing it has not come to. */
  lemma {:induction false} WalkKeepsPlaces(was: seq<Row>, n: nat, flags: Flags, world: World)
    requires n <= |was|
    ensures var rows := WalkOf(was, n, flags, world).rows;
      && (forall j :: 0 <= j < |was| ==> rows[j].id == was[j].id)
      && (forall j :: n <= j < |was| ==> rows[j] == was[j])
      && (Sorted(was) ==> Sorted(rows))
  {
    hide Step;
    if n > 0 {
      WalkKeepsPlaces(was, n - 1, flags, world);
      StepKeepsPlaces(WalkOf(was, n - 1, flags, world), n - 1, was[n - 1], flags, world);
    }
  }

  /** With the cursor at the last row walked, a page starts at the next one. */
  lemma PageStarts(rows: seq<Row>, was: seq<Row>, n: nat, limit: nat)
    requires Sorted(rows) && |rows| == |was| && n <= |was|
    requires forall j :: 0 <= j < |was| ==> rows[j].id == was[j].id
    requires forall j :: n <= j < |was| ==> rows[j] == was[j]
    ensures var page := PageOf(rows, if n == 0 then None else Some(was[n - 1].id), limit);
      |page| <= |was| - n && page == was[n..n + |page|] && (limit > 0 && page == [] ==> n == |was|)
  {
    if n > 0 {
      PastLast(rows, n - 1, 0);
    }
  }

  /** The collection in the store. */
  class Collection {
    var rows: seq<Row>

    constructor (rows: seq<Row>)
      requires Sorted(rows)
      ensures this.rows == rows
    {
      this.rows := rows;
    }

    method Page(after: Option<nat>, limit: nat) returns (objs: seq<Row>)
      ensures objs == PageOf(rows, after, limit)
    {
      objs := PageOf(rows, after, limit);
    }

    /** The object with this id is replaced whole. */
    method Replace(row: Row)
      requires Sorted(rows) && exists i :: 0 <= i < |rows| && rows[i].id == row.id
      modifies this
      ensures Sorted(rows)
      ensures forall i :: 0 <= i < |old(rows)| && old(rows)[i].id == row.id ==> rows == old(rows)[i := row]
    {
      var i :| 0 <= i < |rows| && rows[i].id == row.id;
      forall j | 0 <= j < |rows| && rows[j].id == row.id ensures j == i {
        assert !(j < i) && !(i < j);
      }
      rows := rows[i := row];
    }
  }

  /** How a run ends: every row walked, or what stopped it. */
  datatype Exit = Finished | Stopped

  /** One run over one collection, with the tallies it keeps. */
  class Run {
    const store: Collection
    const flags: Flags
    const world: World
    var log: seq<Event>
    var counts: Counts
    var seen: nat
    var skipped: nat
    var withUri: nat
    var verifiedOnce: bool
    var since: nat
    var stop: Stop

    constructor (store: Collection, flags: Flags, world: World)
      ensures this.store == store && this.flags == flags && this.world == world
      ensures Now() == Start(store.rows)
    {
      this.store, this.flags, this.world := store, flags, world;
      log, counts := [], map[];
      seen, skipped, withUri := 0, 0, 0;
      verifiedOnce, since, stop := false, 0, Going;
    }

    ghost function Now(): Walk
      reads this, store
    {
      Walk(store.rows, log, counts, seen, skipped, withUri, verifiedOnce, since, stop)
    }

    method Count(row: Row, outcome: Outcome)
      modifies this
      ensures Now() == Counted(old(Now()), row, outcome)
    {
      counts := counts[outcome := Get(counts, outcome) + 1];
      if UriOf(row) != "" {
        withUri := withUri + 1;
      }
      seen := seen + 1;
    }

    method Verify(id: nat)
      modifies this
      ensures Now() == Verified(old(Now()), id, world)
    {
      var ok := world.found(id);
      verifiedOnce, since := true, 0;
      log := log + [Checked(id, ok)];
      stop := if ok then Going else Regressed;
    }

    /**
     `relocate`, up to and including its request, and whether that was answered. Only a row that is to be moved is
     sent, whole: its id, its properties, and its own vector under the name and nowhere else.
     */
    method Relocate(row: Row, place: nat) returns (outcome: Outcome, answered: bool)
      requires Sorted(store.rows) && place < |store.rows| && store.rows[place].id == row.id
      modifies this`log, store
      ensures Sorted(store.rows) && outcome == OutcomeOf(row, flags)
      ensures outcome == BlankSkipped <==> KindIs(row, Blankness.Blank)
      ensures outcome == AmbiguousSkipped <==> KindIs(row, Blankness.Ambiguous)
      ensures outcome == Relocated <==> ToMove(row, flags.space) && flags.apply
      ensures outcome != Relocated ==> answered && log == old(log) && store.rows == old(store.rows)
      ensures outcome == Relocated ==>
        answered == world.put(row.id).Done? && log == old(log) + [Sent(row.id)]
        && store.rows == if world.put(row.id).FailedUnwritten? then old(store.rows)
                         else old(store.rows)[place := Row(row.id, row.props, [], map[flags.space := row.legacy])]
    {
      OutcomeExactly(row, flags);
      hide KindIs, ToMove, OutcomeOf;
      outcome, answered := OutcomeOf(row, flags), true;
      if outcome == Relocated {
        log := log + [Sent(row.id)];
        var put := world.put(row.id);
        if !put.FailedUnwritten? {
          store.Replace(Moved(row, flags.space));
        }
        answered := put.Done?;
      }
    }

    /** A row was written: the first is looked up again at once, and then one in so many. */
    method CheckWhenDue(id: nat)
      modifies this
      ensures Now() == AfterWrite(old(Now()), id, flags, world)
    {
      since := since + 1;
      if !verifiedOnce {
        Verify(id);
      } else if flags.verifyEvery > 0 && since >= flags.verifyEvery {
        Verify(id);
      }
    }

    /** One turn of the inner loop. */
    method TakeRow(row: Row, place: nat)
      requires Sorted(store.rows) && place < |store.rows| && store.rows[place].id == row.id && stop == Going
      modifies this, store
      ensures Sorted(store.rows) && Now() == Step(old(Now()), place, row, flags, world)
    {
      hide OutcomeOf, AfterWrite, Sorted, UriOf, KindIs, ToMove;
      if world.interrupts(place) {
        stop := Interrupted;
        return;
      }
      if !Wanted(row, flags) {
        return;
      }
      if seen < flags.offset {
        seen := seen + 1;
        skipped := skipped + 1;
        return;
      }
      if LimitReached(seen, flags) {
        return;
      }
      var outcome, answered := Relocate(row, place);
      if !answered {
        stop := HttpFailed;
        return;
      }
      Count(row, outcome);
      if outcome == Relocated {
        CheckWhenDue(row.id);
      }
    }

    /** One page, to its end or to what stops the run. */
    method TakePage(objs: seq<Row>, first: nat, ghost was: seq<Row>) returns (walked: nat)
      requires Sorted(was) && first + |objs| <= |was| && objs == was[first..first + |objs|]
      requires stop == Going && Now() == WalkOf(was, first, flags, world)
      modifies this, store
      ensures first <= walked <= first + |objs| && Now() == WalkOf(was, walked, flags, world)
      ensures stop == Going ==> walked == first + |objs|
    {
      hide WalkOf, Step, Sorted;
      walked := first;
      for k := 0 to |objs|
        invariant walked == first + k
        invariant stop == Going && Now() == WalkOf(was, walked, flags, world)
      {
        WalkKeepsPlaces(was, walked, flags, world);
        assert objs[k] == was[walked];
        TakeRow(objs[k], walked);
        WalkOn(was, walked, flags, world);
        walked := walked + 1;
        if stop != Going {
          return;
        }
      }
    }

    /** `run_class`: page by page, until a page is empty, the limit is used up, or the run is stopped. */
    method Go(pageFails: nat -> bool) returns (exit: Exit, walked: nat)
      requires Sorted(store.rows) && flags.pageSize > 0 && Now() == Start(store.rows)
      modifies this, store
      ensures walked <= |old(store.rows)|
      ensures Now() == WalkOf(old(store.rows), walked, flags, world)
      ensures exit.Finished? ==> stop == Going
      ensures exit.Finished? ==> walked == |old(store.rows)| || (LimitReached(seen, flags) && flags.wanted.None?)
    {
      hide Step, Sorted, PageOf;
      ghost var was := store.rows;
      var after: Option<nat> := None;
      walked := 0;
      while true
        invariant walked <= |was| && stop == Going
        invariant Now() == WalkOf(was, walked, flags, world)
        invariant after == if walked == 0 then None else Some(was[walked - 1].id)
        decreases |was| - walked
      {
        hide WalkOf;
        if pageFails(walked) {
          return Stopped, walked;
        }
        WalkKeepsPlaces(was, walked, flags, world);
        PageStarts(store.rows, was, walked, flags.pageSize);
        var objs := store.Page(after, flags.pageSize);
        if objs == [] {
          return Finished, walked;
        }
        after := Some(objs[|objs| - 1].id);
        walked := TakePage(objs, walked, was);
        if stop != Going {
          return Stopped, walked;
        }
        if LimitReached(seen, flags) && flags.wanted.None? {
          return Finished, walked;
        }
      }
    }
  }
}
