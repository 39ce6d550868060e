/**
 `dropped_routes`: each expected outcome the draft routes elsewhere; and what it means for that list
 to be empty, said of whole runs through the two bundles.
 */
module Routes {
  import opened Options
  import opened Bundles
  import opened Ordering
  import opened Pairing
  import opened Walk

  /** Where a table sits: the selection, or behind a stage. */
  type Place = Option<Name>

  function RowsAt(ix: Index, at: Place): seq<Row> {
    if at.Some? then ChainRows(ix, at.value) else SelRows(ix)
  }

  // ---- dropped_routes

  /** `{v: k for k, v in pairs.items()}`. */
  function Back(pairs: map<Name, Name>): (b: map<Name, Name>)
    requires Injective(pairs)
    ensures forall k :: k in pairs ==> pairs[k] in b && b[pairs[k]] == k
    ensures forall v :: v in b ==> b[v] in pairs && pairs[b[v]] == v
  {
    map k | k in pairs :: pairs[k] := k
  }

  /** The draft rows read against the expected table at `at`. */
  function DraftRowsAt(d: Index, pairs: map<Name, Name>, at: Place): seq<Row>
    requires Injective(pairs)
  {
    if at.None? then SelRows(d)
    else if at.value in Back(pairs) then ChainRows(d, Back(pairs)[at.value])
    else []
  }

  /** `{id(o): r for r, o in pairs}` looked up at one expected row. */
  function PartnerOf(ps: seq<Pair>, pos: nat): Option<Slot> {
    if ps == [] then None
    else if ps[|ps| - 1].1.pos == pos then Some(ps[|ps| - 1].0)
    else PartnerOf(ps[..|ps| - 1], pos)
  }

  /** One expected row with the draft row paired with it. */
  datatype Read = Read(at: Place, pos: nat, want: Option<Name>, drafted: Option<Slot>)
  {
    /** The draft row's `then`, None without a row. */
    function Then(): Option<Name> {
      if drafted.Some? then drafted.value.row.next else None
    }
  }

  function ReadRow(d: Index, e: Index, pairs: map<Name, Name>, at: Place, i: nat): Read
    requires Injective(pairs) && i < |RowsAt(e, at)|
  {
    Read(at, i, RowsAt(e, at)[i].next,
         PartnerOf(PairedRows(DraftRowsAt(d, pairs, at), RowsAt(e, at), d, e), i))
  }

  function Places(e: Index): set<Place> {
    {None} + set w | w in e.chain :: Some(w)
  }

  function Reads(d: Index, e: Index, pairs: map<Name, Name>): set<Read>
    requires Injective(pairs)
  {
    set at, i | at in Places(e) && 0 <= i < |RowsAt(e, at)| :: ReadRow(d, e, pairs, at, i)
  }

  /** The expected ends that reach the draft end `t`. */
  function EndsAt(all: set<Read>, e: Index, t: Name): set<Option<Name>> {
    set x | x in all && x.drafted.Some? && x.Then() == Some(t) && t != "" && !RoutesOn(x.want, e) :: x.want
  }

  predicate Right(x: Read, all: set<Read>, d: Index, e: Index, pairs: map<Name, Name>) {
    if RoutesOn(x.want, e) then x.Then().Some? && x.Then().value in pairs && Some(pairs[x.Then().value]) == x.want
    else Truthy(x.Then()) && !RoutesOn(x.Then(), d) && |EndsAt(all, e, x.Then().value)| == 1
  }

  function Dropped(d: Index, e: Index, pairs: map<Name, Name>): set<Read>
    requires Injective(pairs)
  {
    var all := Reads(d, e, pairs);
    set x | x in all && !Right(x, all, d, e, pairs)
  }

  /** The rows reported; None where the source raises for a bundle with no selection table. */
  function DroppedRoutes(d: Index, e: Index, pairs: map<Name, Name>): Option<set<Read>>
    requires Injective(pairs)
  {
    if d.sel.None? || e.sel.None? then None else Some(Dropped(d, e, pairs))
  }

  // ---- runs

  /** The table at a place, as the bundle has it. */
  ghost function TableAt(ix: Index, at: Place): (r: seq<Row>)
    ensures r == RowsAt(ix, at)
  {
    match at
    case None => FirstRows(ix)
    case Some(w) => RowsBehind(ix, w)
  }

  /** A run of a bundle: the rows a case took, one table after another. */
  datatype Run = Fresh | Take(before: Run, row: nat)

  /** Where a run has got to: the `then` of its last row, or the selection. */
  ghost function After(ix: Index, run: Run): Place {
    match run
    case Fresh => None
    case Take(before, i) =>
      var rows := TableAt(ix, After(ix, before));
      if i < |rows| then rows[i].next else None
  }

  /** The case can still take a row: it has not started, or went on to a stage. */
  ghost predicate GoingOn(ix: Index, run: Run) {
    run.Fresh? || RoutesOn(After(ix, run), ix)
  }

  /** Each choice is a row of the table the case has reached, and the case is still going on. */
  ghost predicate IsRun(ix: Index, run: Run) {
    match run
    case Fresh => true
    case Take(before, i) => IsRun(ix, before) && GoingOn(ix, before) && i < |TableAt(ix, After(ix, before))|
  }

  predicate SameStage(pairs: map<Name, Name>, s: Place, t: Place) {
    s.Some? && s.value in pairs && Some(pairs[s.value]) == t
  }

  /** Row `i` of the draft table at `s` is paired with row `j` of the expected table at `t`. */
  ghost predicate Answers(d: Index, e: Index, s: Place, t: Place, i: nat, j: nat) {
    && i < |TableAt(d, s)| && j < |TableAt(e, t)|
    && (Slot(i, TableAt(d, s)[i]), Slot(j, TableAt(e, t)[j])) in PairedRows(TableAt(d, s), TableAt(e, t), d, e)
  }

  /** Two runs stand at tables read against each other: both selections, or paired stages. */
  ghost predicate InStep(d: Index, e: Index, pairs: map<Name, Name>, drun: Run, erun: Run) {
    && (erun.Fresh? <==> drun.Fresh?)
    && (erun.Take? ==> SameStage(pairs, After(d, drun), After(e, erun)))
  }

  /** The draft run takes, at each step, the row paired with the expected run's row. */
  ghost predicate Follows(d: Index, e: Index, pairs: map<Name, Name>, drun: Run, erun: Run) {
    match erun
    case Fresh => drun.Fresh?
    case Take(ebefore, j) =>
      && drun.Take?
      && Follows(d, e, pairs, drun.before, ebefore)
      && GoingOn(d, drun.before) && GoingOn(e, ebefore)
      && InStep(d, e, pairs, drun.before, ebefore)
      && Answers(d, e, After(d, drun.before), After(e, ebefore), drun.row, j)
  }

  /** Both go on, to paired stages; or both end, the draft at a named end. */
  predicate Agree(d: Index, e: Index, pairs: map<Name, Name>, s: Place, t: Place) {
    if RoutesOn(t, e) then RoutesOn(s, d) && SameStage(pairs, s, t)
    else Truthy(s) && !RoutesOn(s, d)
  }

  ghost predicate Matches(d: Index, e: Index, pairs: map<Name, Name>, drun: Run, erun: Run) {
    Follows(d, e, pairs, drun, erun) && Agree(d, e, pairs, After(d, drun), After(e, erun))
  }

  ghost predicate Simulated(d: Index, e: Index, pairs: map<Name, Name>, erun: Run) {
    exists drun :: Matches(d, e, pairs, drun, erun)
  }

  /** The expected run ends at `t` and the draft run that follows it ends at `s`. */
  ghost predicate EndsAs(d: Index, e: Index, pairs: map<Name, Name>, drun: Run, erun: Run, s: Place, t: Place) {
    && erun.Take? && Follows(d, e, pairs, drun, erun)
    && After(d, drun) == s && After(e, erun) == t && !RoutesOn(t, e) && Truthy(s)
  }

  ghost predicate EndsTogether(d: Index, e: Index, pairs: map<Name, Name>, s: Place, t: Place) {
    exists drun, erun :: EndsAs(d, e, pairs, drun, erun, s, t)
  }

  /** Every expected run is matched, and the draft end a case reaches determines the expected end. */
  ghost predicate Simulates(d: Index, e: Index, pairs: map<Name, Name>) {
    && (forall erun: Run :: erun.Take? && IsRun(e, erun) ==> Simulated(d, e, pairs, erun))
    && (forall s, t, t' :: EndsTogether(d, e, pairs, s, t) && EndsTogether(d, e, pairs, s, t') ==> t == t')
  }

  /** The expected bundle has a run that goes on to stage `t`. */
  ghost predicate Reachable(e: Index, t: Place) {
    exists erun: Run :: erun.Take? && IsRun(e, erun) && After(e, erun) == t && RoutesOn(t, e)
  }

  /** No stage an expected run goes on to is paired with a name the draft ends at. */
  ghost predicate NoDeadStage(d: Index, e: Index, pairs: map<Name, Name>) {
    forall s, t :: Reachable(e, t) && SameStage(pairs, s, t) ==> RoutesOn(s, d)
  }

  /** Every expected chaining table with a row stands behind a stage some run reaches. */
  ghost predicate Covered(e: Index) {
    forall w :: w in e.chain && e.chain[w].rows != [] ==> Reachable(e, Some(w))
  }

  // ---- lookups

  lemma {:induction false} PartnerFacts(ps: seq<Pair>, pos: nat)
    ensures PartnerOf(ps, pos).Some? ==> exists p :: p in ps && p.1.pos == pos && p.0 == PartnerOf(ps, pos).value
    ensures PartnerOf(ps, pos).None? ==> forall p :: p in ps ==> p.1.pos != pos
  {
    if ps != [] {
      var n := |ps| - 1;
      assert ps == ps[..n] + [ps[n]];
      PartnerFacts(ps[..n], pos);
      if ps[n].1.pos == pos {
        assert ps[n] in ps;
      } else if PartnerOf(ps, pos).Some? {
        var p :| p in ps[..n] && p.1.pos == pos && p.0 == PartnerOf(ps[..n], pos).value;
        assert p in ps;
      }
    }
  }

  /** A row read as paired is paired, and a paired row is read so. */
  lemma PartnerIs(drows: seq<Row>, erows: seq<Row>, d: Index, e: Index, j: nat, x: Slot)
    requires j < |erows|
    ensures PartnerOf(PairedRows(drows, erows, d, e), j) == Some(x)
       <==> (x, Slot(j, erows[j])) in PairedRows(drows, erows, d, e)
  {
    hide PairedRows;
    var ps := PairedRows(drows, erows, d, e);
    PairedRowsFacts(drows, erows, d, e);
    PartnerFacts(ps, j);
    if PartnerOf(ps, j).Some? {
      var p :| p in ps && p.1.pos == j && p.0 == PartnerOf(ps, j).value;
      assert p == (PartnerOf(ps, j).value, Slot(j, erows[j]));
    }
    if (x, Slot(j, erows[j])) in ps {
      var p :| p in ps && p.1.pos == j && p.0 == PartnerOf(ps, j).value;
      var a :| 0 <= a < |ps| && ps[a] == p;
      var b :| 0 <= b < |ps| && ps[b] == (x, Slot(j, erows[j]));
    }
  }

  lemma AllRight(d: Index, e: Index, pairs: map<Name, Name>, x: Read)
    requires Injective(pairs) && Dropped(d, e, pairs) == {} && x in Reads(d, e, pairs)
    ensures Right(x, Reads(d, e, pairs), d, e, pairs)
  {
    DroppedMembers(d, e, pairs);
  }

  lemma DroppedMembers(d: Index, e: Index, pairs: map<Name, Name>)
    requires Injective(pairs)
    ensures forall x :: x in Dropped(d, e, pairs) <==>
      x in Reads(d, e, pairs) && !Right(x, Reads(d, e, pairs), d, e, pairs)
  {
  }

  /** Runs in step read the draft's table: the read of the next row, and the row that answers it. */
  lemma NextRead(d: Index, e: Index, pairs: map<Name, Name>, drun: Run, erun: Run, j: nat) returns (x: Read)
    requires Injective(pairs) && InStep(d, e, pairs, drun, erun)
    requires j < |RowsAt(e, After(e, erun))|
    ensures x in Reads(d, e, pairs) && x.at == After(e, erun) && x.pos == j
    ensures x.want == RowsAt(e, After(e, erun))[j].next
    ensures x.drafted.Some? ==>
      && x.Then() == After(d, Take(drun, x.drafted.value.pos))
      && Answers(d, e, After(d, drun), After(e, erun), x.drafted.value.pos, j)
    ensures forall i: nat :: Answers(d, e, After(d, drun), After(e, erun), i, j) ==>
      x.drafted.Some? && x.drafted.value.pos == i
  {
    hide PairedRows;
    var s, t := After(d, drun), After(e, erun);
    assert t.Some? ==> Back(pairs)[t.value] == s.value;
    assert DraftRowsAt(d, pairs, t) == RowsAt(d, s);
    x := ReadRow(d, e, pairs, t, j);
    assert t in Places(e);
    PairedRowsFacts(RowsAt(d, s), RowsAt(e, t), d, e);
    if x.drafted.Some? {
      PartnerIs(RowsAt(d, s), RowsAt(e, t), d, e, j, x.drafted.value);
    }
    forall i: nat | Answers(d, e, s, t, i, j) ensures x.drafted.Some? && x.drafted.value.pos == i {
      PartnerIs(RowsAt(d, s), RowsAt(e, t), d, e, j, Slot(i, RowsAt(d, s)[i]));
    }
  }

  // ---- an empty list of dropped routes simulates

  lemma {:induction false} RunsSimulated(d: Index, e: Index, pairs: map<Name, Name>, erun: Run)
    requires Injective(pairs) && Dropped(d, e, pairs) == {} && NoDeadStage(d, e, pairs)
    requires erun.Take? && IsRun(e, erun)
    ensures Simulated(d, e, pairs, erun)
  {
    hide PairedRows, Reads, RowsAt;
    var before := erun.before;
    var drun := Fresh;
    if before.Take? {
      RunsSimulated(d, e, pairs, before);
      drun :| Matches(d, e, pairs, drun, before);
    }
    var x := NextRead(d, e, pairs, drun, before, erun.row);
    AllRight(d, e, pairs, x);
    var drun' := Take(drun, x.drafted.value.pos);
    if RoutesOn(x.want, e) {
      assert Reachable(e, After(e, erun));
      assert SameStage(pairs, After(d, drun'), After(e, erun));
    }
    assert Follows(d, e, pairs, drun', erun);
    assert Matches(d, e, pairs, drun', erun);
  }

  /** The last step of a followed run is a row read. */
  lemma LastRead(d: Index, e: Index, pairs: map<Name, Name>, drun: Run, erun: Run) returns (x: Read)
    requires Injective(pairs) && erun.Take? && Follows(d, e, pairs, drun, erun)
    ensures x in Reads(d, e, pairs) && x.at == After(e, erun.before) && x.pos == erun.row
    ensures x.drafted.Some? && x.Then() == After(d, drun) && x.want == After(e, erun)
  {
    x := NextRead(d, e, pairs, drun.before, erun.before, erun.row);
  }

  lemma OneEnd(s: set<Option<Name>>, t: Option<Name>, t': Option<Name>)
    requires |s| == 1 && t in s && t' in s
    ensures t == t'
  {
    assert |s - {t}| == 0;
    assert t' == t || t' in s - {t};
  }

  lemma EndsApart(d: Index, e: Index, pairs: map<Name, Name>, s: Place, t: Place, t': Place)
    requires Injective(pairs) && Dropped(d, e, pairs) == {}
    requires EndsTogether(d, e, pairs, s, t) && EndsTogether(d, e, pairs, s, t')
    ensures t == t'
  {
    var drun, erun :| EndsAs(d, e, pairs, drun, erun, s, t);
    var drun', erun' :| EndsAs(d, e, pairs, drun', erun', s, t');
    var x := LastRead(d, e, pairs, drun, erun);
    var x' := LastRead(d, e, pairs, drun', erun');
    AllRight(d, e, pairs, x);
    OneEnd(EndsAt(Reads(d, e, pairs), e, s.value), t, t');
  }

  // ---- a draft that simulates drops no route

  /** Where runs cover the bundle, some run can take any row of it next. */
  lemma RunInto(e: Index, at: Place, j: nat) returns (before: Run)
    requires Covered(e) && at in Places(e) && j < |RowsAt(e, at)|
    ensures IsRun(e, Take(before, j)) && After(e, before) == at
  {
    before := Fresh;
    if at.Some? {
      assert at.value in e.chain && e.chain[at.value].rows != [];
      assert Reachable(e, Some(at.value));
      before :| before.Take? && IsRun(e, before) && After(e, before) == at && RoutesOn(at, e);
    }
  }

  lemma PlaceOfRead(d: Index, e: Index, pairs: map<Name, Name>, at: Place, j: nat)
    requires Injective(pairs) && at in Places(e) && j < |RowsAt(e, at)|
    ensures ReadRow(d, e, pairs, at, j).at == at && ReadRow(d, e, pairs, at, j).pos == j
  {
  }

  /** Where runs cover the expected bundle, every row read is the last row of a matched run. */
  lemma ReadIsRun(d: Index, e: Index, pairs: map<Name, Name>, x: Read) returns (drun: Run, erun: Run)
    requires Injective(pairs) && Simulates(d, e, pairs) && Covered(e)
    requires x in Reads(d, e, pairs)
    ensures erun.Take? && Matches(d, e, pairs, drun, erun)
    ensures x.drafted.Some? && x.Then() == After(d, drun) && x.want == After(e, erun)
  {
    hide PairedRows, Covered, ReadRow;
    var at, j :| at in Places(e) && 0 <= j < |RowsAt(e, at)| && x == ReadRow(d, e, pairs, at, j);
    var before := RunInto(e, at, j);
    erun := Take(before, j);
    assert Simulated(d, e, pairs, erun);
    drun :| Matches(d, e, pairs, drun, erun);
    hide Matches, IsRun, Simulates, Simulated;
    PlaceOfRead(d, e, pairs, at, j);
    var y := LastRead(d, e, pairs, drun, erun);
    assert y.at == x.at && y.pos == x.pos;
    ReadsAgree(d, e, pairs, x, y);
  }

  lemma ReadsAgree(d: Index, e: Index, pairs: map<Name, Name>, x: Read, y: Read)
    requires Injective(pairs) && x in Reads(d, e, pairs) && y in Reads(d, e, pairs)
    requires x.at == y.at && x.pos == y.pos
    ensures x == y
  {
  }

  lemma ReadIsRight(d: Index, e: Index, pairs: map<Name, Name>, x: Read)
    requires Injective(pairs) && Simulates(d, e, pairs) && Covered(e)
    requires x in Reads(d, e, pairs)
    ensures Right(x, Reads(d, e, pairs), d, e, pairs)
  {
    hide PairedRows, Reads, Covered;
    var all := Reads(d, e, pairs);
    var drun, erun := ReadIsRun(d, e, pairs, x);
    if !RoutesOn(x.want, e) {
      var s := x.Then();
      assert EndsAs(d, e, pairs, drun, erun, s, x.want);
      var ends := EndsAt(all, e, s.value);
      forall t | t in ends ensures t == x.want {
        var y :| y in all && y.drafted.Some? && y.Then() == s && !RoutesOn(y.want, e) && y.want == t;
        var drun', erun' := ReadIsRun(d, e, pairs, y);
        assert EndsAs(d, e, pairs, drun', erun', s, t);
        assert EndsTogether(d, e, pairs, s, t) && EndsTogether(d, e, pairs, s, x.want);
      }
      assert x.want in ends;
      assert ends == {x.want};
    }
  }

  // ---- the theorem

  /**
   With no dropped route, the draft simulates the expected process over every run exactly when no
   stage a run goes on to is paired with a name the draft ends at.
   */
  lemma NoDroppedRouteSimulates(d: Index, e: Index, pairs: map<Name, Name>)
    requires Injective(pairs) && DroppedRoutes(d, e, pairs) == Some({})
    ensures d.sel.Some? && e.sel.Some?
    ensures Simulates(d, e, pairs) <==> NoDeadStage(d, e, pairs)
  {
    if NoDeadStage(d, e, pairs) {
      forall erun: Run | erun.Take? && IsRun(e, erun) ensures Simulated(d, e, pairs, erun) {
        RunsSimulated(d, e, pairs, erun);
      }
      forall s, t, t' | EndsTogether(d, e, pairs, s, t) && EndsTogether(d, e, pairs, s, t') ensures t == t' {
        EndsApart(d, e, pairs, s, t, t');
      }
    }
    if Simulates(d, e, pairs) {
      SimulatesHasNoDeadStage(d, e, pairs);
    }
  }

  lemma SimulatesHasNoDeadStage(d: Index, e: Index, pairs: map<Name, Name>)
    requires Injective(pairs) && Simulates(d, e, pairs)
    ensures NoDeadStage(d, e, pairs)
  {
    forall s, t | Reachable(e, t) && SameStage(pairs, s, t) ensures RoutesOn(s, d) {
      var erun: Run :| erun.Take? && IsRun(e, erun) && After(e, erun) == t && RoutesOn(t, e);
      assert Simulated(d, e, pairs, erun);
      var drun :| Matches(d, e, pairs, drun, erun);
    }
  }

  /** Where runs cover the expected bundle, the list is empty exactly when the draft simulates. */
  lemma DroppedRoutesIsExact(d: Index, e: Index, pairs: map<Name, Name>)
    requires Injective(pairs) && d.sel.Some? && e.sel.Some? && Covered(e)
    ensures Simulates(d, e, pairs) <==> DroppedRoutes(d, e, pairs) == Some({}) && NoDeadStage(d, e, pairs)
  {
    if Simulates(d, e, pairs) {
      forall x | x in Reads(d, e, pairs) ensures Right(x, Reads(d, e, pairs), d, e, pairs) {
        ReadIsRight(d, e, pairs, x);
      }
      assert Dropped(d, e, pairs) == {};
      SimulatesHasNoDeadStage(d, e, pairs);
    }
    if DroppedRoutes(d, e, pairs) == Some({}) {
      NoDroppedRouteSimulates(d, e, pairs);
    }
  }

  /** With the pairing the source reads it with: enough that no declared draft stage is a terminal. */
  lemma DraftSimulatesExpected(d: Index, e: Index, listed: Option<seq<Name>>)
    requires d.trigger.stages.Some? ==> forall s :: s in d.trigger.stages.value ==> RoutesOn(Some(s), d)
    ensures Injective(PairedStages(d, e, listed))
    ensures DroppedRoutes(d, e, PairedStages(d, e, listed)) == Some({}) ==> Simulates(d, e, PairedStages(d, e, listed))
  {
    var pairs := PairedStages(d, e, listed);
    PairedStagesFacts(d, e, listed);
    WalkedFacts(d, e);
    assert forall s :: s in pairs ==> RoutesOn(Some(s), d);
    if DroppedRoutes(d, e, pairs) == Some({}) {
      NoDroppedRouteSimulates(d, e, pairs);
    }
  }

  // ---- a declared stage that is a draft terminal: nothing dropped, yet the draft ends too soon

  const NO_TRIGGER := Trigger(None, [], [], None)

  const STOPS_SHORT := Index(
    NO_TRIGGER.(stages := Some(["done"])),
    Some(Table([], [Row([("outcome", "ok")], Some("done"))])), map[], map[], map[], {"done"})

  const GOES_ON := Index(
    NO_TRIGGER, Some(Table([], [Row([("outcome", "ok")], Some("review"))])), map[], map[], map[], {})

  lemma NoLinkNoWalk(d: Index, e: Index)
    requires forall r :: r in SelRows(d) ==> !RoutesOn(r.next, d)
    ensures Walked(d, e) == map[]
  {
    WalkedFacts(d, e);
    forall s ensures s !in Walked(d, e) {
      if s in Walked(d, e) {
        NothingReached(d, e, s, Walked(d, e)[s]);
      }
    }
  }

  lemma NothingReached(d: Index, e: Index, s: Name, t: Name)
    requires forall r :: r in SelRows(d) ==> !RoutesOn(r.next, d)
    ensures !Reached(d, e, s, t)
  {
    forall path: seq<(Name, Name)> ensures !LockStep(d, e, path) {
      PairedRowsFacts(SelRows(d), SelRows(e), d, e);
      forall p | p in PairedRows(SelRows(d), SelRows(e), d, e) ensures p.0.row in SelRows(d) {
      }
    }
  }

  /** A bundle with one row in its selection and no chaining table has that one read. */
  lemma OneRead(d: Index, e: Index, pairs: map<Name, Name>) returns (x: Read)
    requires Injective(pairs) && e.chain == map[]
    requires |SelRows(d)| == 1 && |SelRows(e)| == 1 && SelRows(d)[0].when == SelRows(e)[0].when
    ensures Reads(d, e, pairs) == {x}
    ensures x.want == SelRows(e)[0].next && x.drafted.Some? && x.Then() == SelRows(d)[0].next
  {
    hide PairedRows, Reads;
    x := NextRead(d, e, pairs, Fresh, Fresh, 0);
    LiteralPairs(SelRows(d), SelRows(e), d, e, 0, 0);
    assert Answers(d, e, After(d, Fresh), After(e, Fresh), 0, 0);
    assert Places(e) == {None};
    forall y | y in Reads(d, e, pairs) ensures y == x {
      ReadPlace(d, e, pairs, y);
      ReadsAgree(d, e, pairs, x, y);
    }
  }

  lemma ReadPlace(d: Index, e: Index, pairs: map<Name, Name>, y: Read)
    requires Injective(pairs) && y in Reads(d, e, pairs)
    ensures y.at in Places(e) && y.pos < |RowsAt(e, y.at)|
  {
    hide PairedRows;
  }

  lemma DeclaredTerminalIsMissed()
    ensures PairedStages(STOPS_SHORT, GOES_ON, Some(["review"])) == map["done" := "review"]
    ensures DroppedRoutes(STOPS_SHORT, GOES_ON, map["done" := "review"]) == Some({})
    ensures !Simulates(STOPS_SHORT, GOES_ON, map["done" := "review"])
  {
    hide PairedRows, Simulates, Reads, Walked;
    var d, e := STOPS_SHORT, GOES_ON;
    var pairs := map["done" := "review"];
    NoLinkNoWalk(d, e);
    assert AddDeclared(map[], ["done"], ["review"]) == pairs;
    var x := OneRead(d, e, pairs);
    assert Right(x, Reads(d, e, pairs), d, e, pairs);
    DroppedMembers(d, e, pairs);
    assert Dropped(d, e, pairs) == {};
    var erun := Take(Fresh, 0);
    assert IsRun(e, erun) && After(e, erun) == Some("review");
    assert Reachable(e, Some("review")) && SameStage(pairs, Some("done"), Some("review"));
    NoDroppedRouteSimulates(d, e, pairs);
  }
}
