/**
 A draft that differs from the expected bundle only in its names: the walk pairs every stage with its
 own, and the readings are clean exactly when the expected bundle is tidy. A bundle read against
 itself is the case where the names are the same.
 */
module Echo {
  import opened Options
  import opened Bundles
  import opened Ordering
  import opened Pairing
  import opened Walk
  import opened Routes
  import opened Readings

  /** `d` is `e` with every stage, end and table renamed by `f`, which keeps the empty name. */
  ghost predicate Echoes(d: Index, e: Index, f: Name -> Name) {
    && Injection(f) && f("") == ""
    && (d.sel.Some? <==> e.sel.Some?) && SelRows(d) == RenameRows(f, SelRows(e))
    && (forall w :: f(w) in d.chain <==> w in e.chain)
    && (forall w :: ChainRows(d, f(w)) == RenameRows(f, ChainRows(e, w)))
    && (forall w :: f(w) in d.terminals <==> w in e.terminals)
    && (forall w :: f(w) in d.stages <==> w in e.stages)
    && (forall w :: w in e.stages ==> Kinds(d.stages[f(w)]) == Kinds(e.stages[w]))
  }

  ghost predicate AllDistinct(e: Index) {
    forall at :: at in Places(e) ==> DistinctWhens(RowsAt(e, at))
  }

  // ---- rows

  lemma EchoRoutes(d: Index, e: Index, f: Name -> Name, next: Option<Name>)
    requires Echoes(d, e, f)
    ensures RoutesOn(RenameNext(f, next), d) == RoutesOn(next, e)
    ensures Truthy(RenameNext(f, next)) == Truthy(next)
  {
    if next.Some? {
      assert f(next.value) == f("") ==> next.value == "";
    }
  }

  /** Each row pairs with its own renaming, and with no other. */
  lemma EchoPairs(d: Index, e: Index, f: Name -> Name, rows: seq<Row>)
    requires DistinctWhens(rows)
    ensures forall p :: p in PairedRows(RenameRows(f, rows), rows, d, e) <==>
      p.0.pos == p.1.pos < |rows| && p.1.row == rows[p.1.pos] && p.0.row == RenameRows(f, rows)[p.0.pos]
  {
    hide PairedRows, FitPair, RoutesOn;
    var drows := RenameRows(f, rows);
    PairedRowsFacts(drows, rows, d, e);
    var ps := PairedRows(drows, rows, d, e);
    assert DistinctWhens(drows);
    forall i: nat | i < |rows| ensures (Slot(i, drows[i]), Slot(i, rows[i])) in ps {
      LiteralPairs(drows, rows, d, e, i, i);
    }
    forall p | p in ps ensures p.0.pos == p.1.pos {
      var own := (Slot(p.1.pos, drows[p.1.pos]), p.1);
      var a :| 0 <= a < |ps| && ps[a] == p;
      var b :| 0 <= b < |ps| && ps[b] == own;
    }
  }

  /** The renamed tables, one place at a time. */
  lemma EchoTable(d: Index, e: Index, f: Name -> Name, at: Place)
    requires Echoes(d, e, f)
    ensures RowsAt(d, RenameNext(f, at)) == RenameRows(f, RowsAt(e, at))
    ensures at.Some? ==> (f(at.value) in d.chain <==> at.value in e.chain)
    ensures d.sel.Some? <==> e.sel.Some?
  {
    hide RenameRows, Injection;
  }

  lemma DistinctAt(e: Index, at: Place)
    requires AllDistinct(e) && (at.None? || at.value in e.chain)
    ensures DistinctWhens(RowsAt(e, at))
  {
    hide DistinctWhens, RowsAt;
    assert at in Places(e);
  }

  // ---- the walk

  lemma EchoLinks(d: Index, e: Index, f: Name -> Name, rows: seq<Row>, s: Name, t: Name)
    requires Echoes(d, e, f) && DistinctWhens(rows)
    ensures Linked(d, e, (RenameRows(f, rows), rows), s, t) <==>
      s == f(t) && RoutesOn(Some(t), e) && exists i :: 0 <= i < |rows| && rows[i].next == Some(t)
  {
    hide PairedRows;
    EchoPairs(d, e, f, rows);
    EchoRoutes(d, e, f, Some(t));
    var ps := PairedRows(RenameRows(f, rows), rows, d, e);
    if Linked(d, e, (RenameRows(f, rows), rows), s, t) {
      var p :| p in ps && LinksTo(p, d, e, s, t);
      assert rows[p.1.pos].next == Some(t);
    }
    if s == f(t) && RoutesOn(Some(t), e) {
      if i :| 0 <= i < |rows| && rows[i].next == Some(t) {
        var p := (Slot(i, RenameRows(f, rows)[i]), Slot(i, rows[i]));
        assert p in ps && LinksTo(p, d, e, s, t);
      }
    }
  }

  lemma {:induction false} PathIsRun(d: Index, e: Index, f: Name -> Name, path: seq<(Name, Name)>)
    requires Echoes(d, e, f) && AllDistinct(e) && LockStep(d, e, path)
    ensures var (s, t) := path[|path| - 1]; s == f(t) && Reachable(e, Some(t))
    decreases |path|
  {
    hide Linked, Echoes;
    var n := |path| - 1;
    var (s, t) := path[n];
    if n == 0 {
      EchoStart(d, e, f, s, t);
    } else {
      var shorter := path[..n];
      assert forall i :: 0 <= i < |shorter| - 1 ==> StepsTo(d, e, path[i], path[i + 1]);
      assert LockStep(d, e, shorter);
      PathIsRun(d, e, f, shorter);
      assert StepsTo(d, e, path[n - 1], path[n]);
      EchoStep(d, e, f, path[n - 1].1, s, t);
    }
  }

  lemma ReachFirst(e: Index, t: Name, i: nat)
    requires i < |SelRows(e)| && SelRows(e)[i].next == Some(t) && RoutesOn(Some(t), e)
    ensures Reachable(e, Some(t))
  {
    var run := Take(Fresh, i);
    assert After(e, Fresh) == None && RowsAt(e, None) == SelRows(e);
    assert IsRun(e, Fresh) && GoingOn(e, Fresh);
    assert IsRun(e, run) && After(e, run) == Some(t);
  }

  lemma ReachNext(e: Index, w: Name, t: Name, i: nat)
    requires Reachable(e, Some(w)) && i < |ChainRows(e, w)|
      && ChainRows(e, w)[i].next == Some(t) && RoutesOn(Some(t), e)
    ensures Reachable(e, Some(t))
  {
    var run: Run :| run.Take? && IsRun(e, run) && After(e, run) == Some(w) && RoutesOn(Some(w), e);
    var longer := Take(run, i);
    assert IsRun(e, longer) && After(e, longer) == Some(t);
  }

  lemma EchoStart(d: Index, e: Index, f: Name -> Name, s: Name, t: Name)
    requires Echoes(d, e, f) && AllDistinct(e)
    requires Linked(d, e, (SelRows(d), SelRows(e)), s, t)
    ensures s == f(t) && Reachable(e, Some(t))
  {
    hide Echoes, AllDistinct, Linked, Reachable, RenameRows;
    EchoTable(d, e, f, None);
    DistinctAt(e, None);
    EchoLinks(d, e, f, SelRows(e), s, t);
    var i :| 0 <= i < |SelRows(e)| && SelRows(e)[i].next == Some(t);
    ReachFirst(e, t, i);
  }

  lemma EchoStep(d: Index, e: Index, f: Name -> Name, w: Name, s: Name, t: Name)
    requires Echoes(d, e, f) && AllDistinct(e) && Reachable(e, Some(w))
    requires w in e.chain && Linked(d, e, ChainTables(d, e, f(w), w), s, t)
    ensures s == f(t) && Reachable(e, Some(t))
  {
    hide Echoes, AllDistinct, Linked, Reachable, RenameRows;
    EchoTable(d, e, f, Some(w));
    DistinctAt(e, Some(w));
    EchoLinks(d, e, f, ChainRows(e, w), s, t);
    var i :| 0 <= i < |ChainRows(e, w)| && ChainRows(e, w)[i].next == Some(t);
    ReachNext(e, w, t, i);
  }

  lemma {:induction false} RunIsPath(d: Index, e: Index, f: Name -> Name, run: Run)
    requires Echoes(d, e, f) && AllDistinct(e) && d.sel.Some?
    requires run.Take? && IsRun(e, run) && RoutesOn(After(e, run), e)
    ensures Reached(d, e, f(After(e, run).value), After(e, run).value)
  {
    hide Echoes, AllDistinct, Linked, Reached, RenameRows;
    var before, i := run.before, run.row;
    var at := After(e, before);
    var t := After(e, run).value;
    assert RowsAt(e, at)[i].next == Some(t);
    EchoTable(d, e, f, at);
    if before.Fresh? {
      DistinctAt(e, None);
      EchoLinks(d, e, f, SelRows(e), f(t), t);
      ReachedFromSel(d, e, f(t), t);
    } else {
      RunIsPath(d, e, f, before);
      var w := at.value;
      assert w in e.chain;
      DistinctAt(e, at);
      EchoLinks(d, e, f, ChainRows(e, w), f(t), t);
      assert StepsTo(d, e, (f(w), w), (f(t), t));
      ReachedFromStage(d, e, (f(w), w), (f(t), t));
    }
  }

  /** Lock-step paths reach a stage exactly with its own renaming, when a run reaches it. */
  lemma EchoReached(d: Index, e: Index, f: Name -> Name, s: Name, t: Name)
    requires Echoes(d, e, f) && AllDistinct(e) && d.sel.Some?
    ensures Reached(d, e, s, t) <==> s == f(t) && Reachable(e, Some(t))
  {
    hide Echoes, AllDistinct;
    if Reached(d, e, s, t) {
      var path :| LockStep(d, e, path) && path[|path| - 1] == (s, t);
      PathIsRun(d, e, f, path);
    }
    if s == f(t) && Reachable(e, Some(t)) {
      var run: Run :| run.Take? && IsRun(e, run) && After(e, run) == Some(t) && RoutesOn(Some(t), e);
      RunIsPath(d, e, f, run);
    }
  }

  /** The walk pairs every stage a run reaches with its own, and nothing else. */
  lemma EchoWalked(d: Index, e: Index, f: Name -> Name)
    requires Echoes(d, e, f) && AllDistinct(e) && d.sel.Some?
    ensures forall s, t :: s in Walked(d, e) && Walked(d, e)[s] == t <==> s == f(t) && Reachable(e, Some(t))
  {
    hide Reached, Reachable, Walked, AllDistinct, Echoes;
    forall s, t ensures Reached(d, e, s, t) <==> s == f(t) && Reachable(e, Some(t)) {
      EchoReached(d, e, f, s, t);
    }
    forall s, t, s', t' | Reached(d, e, s, t) && Reached(d, e, s', t') ensures s == s' <==> t == t' {
      if s == s' { InjectionAt(d, e, f, t, t'); }
    }
    assert OneToOne(d, e);
    WalkedExactly(d, e);
    forall s, t ensures s in Walked(d, e) && Walked(d, e)[s] == t <==> s == f(t) && Reachable(e, Some(t)) {
      assert Reached(d, e, s, t) <==> s in Walked(d, e) && Walked(d, e)[s] == t;
    }
  }

  // ---- with the declared lists

  /** The draft declares the person's own list, renamed. */
  ghost predicate EchoesList(d: Index, f: Name -> Name, listed: Option<seq<Name>>) {
    match listed
    case None => d.trigger.stages.None?
    case Some(l) => d.trigger.stages == Some(RenameList(f, l))
  }

  function RenameList(f: Name -> Name, l: seq<Name>): (r: seq<Name>)
    ensures |r| == |l|
    ensures forall i :: 0 <= i < |r| ==> r[i] == f(l[i])
  {
    seq(|l|, i requires 0 <= i < |l| => f(l[i]))
  }

  /** A run reaches the stage, or the person listed it. */
  ghost predicate Known(e: Index, listed: Option<seq<Name>>, w: Name) {
    Reachable(e, Some(w)) || (listed.Some? && w in listed.value)
  }

  ghost predicate OwnPairs(m: map<Name, Name>, f: Name -> Name) {
    forall s :: s in m ==> s == f(m[s])
  }

  lemma {:induction false} EchoDeclared(m: map<Name, Name>, f: Name -> Name, l: seq<Name>)
    requires Injection(f) && OwnPairs(m, f)
    ensures var r := AddDeclared(m, RenameList(f, l), l);
      OwnPairs(r, f) && forall w :: f(w) in r <==> f(w) in m || w in l
    decreases |l|
  {
    if l != [] {
      var fl := RenameList(f, l);
      assert fl[1..] == RenameList(f, l[1..]);
      assert l[0] in m.Values ==> f(l[0]) in m;
      var m' := if fl[0] !in m && l[0] !in m.Values then m[fl[0] := l[0]] else m;
      EchoDeclared(m', f, l[1..]);
      assert l == [l[0]] + l[1..];
    }
  }

  /** Every stage a run reaches or the person listed is paired with its own, and nothing else. */
  lemma EchoPaired(d: Index, e: Index, f: Name -> Name, listed: Option<seq<Name>>)
    requires Echoes(d, e, f) && AllDistinct(e) && d.sel.Some? && EchoesList(d, f, listed)
    ensures var r := PairedStages(d, e, listed);
      OwnPairs(r, f) && forall w :: f(w) in r <==> Known(e, listed, w)
  {
    hide Walked, Reachable, AllDistinct, Echoes, OwnPairs, AddDeclared;
    EchoWalked(d, e, f);
    InjectionOf(d, e, f);
    var m := Walked(d, e);
    WalkedOwn(d, e, f, m);
    if listed.Some? {
      EchoDeclared(m, f, listed.value);
      assert PairedStages(d, e, listed) == AddDeclared(m, RenameList(f, listed.value), listed.value);
    } else {
      assert PairedStages(d, e, listed) == m;
    }
  }

  lemma InjectionOf(d: Index, e: Index, f: Name -> Name)
    requires Echoes(d, e, f)
    ensures Injection(f)
  {
  }

  lemma WalkedOwn(d: Index, e: Index, f: Name -> Name, m: map<Name, Name>)
    requires Injection(f)
    requires forall s, t :: s in m && m[s] == t <==> s == f(t) && Reachable(e, Some(t))
    ensures OwnPairs(m, f)
    ensures forall w :: f(w) in m <==> Reachable(e, Some(w))
  {
    hide Reachable;
    forall w ensures f(w) in m <==> Reachable(e, Some(w)) {
      if f(w) in m {
        assert f(m[f(w)]) == f(w);
      }
    }
  }

  // ---- a clean reading of routes

  /** Every row names where it goes, on to a known stage or to an end, and stands behind a known stage. */
  ghost predicate TidyAt(e: Index, listed: Option<seq<Name>>, at: Place) {
    var rows := RowsAt(e, at);
    && DistinctWhens(rows)
    && (at.Some? && rows != [] ==> Known(e, listed, at.value))
    && forall i :: 0 <= i < |rows| ==>
         Truthy(rows[i].next) && (RoutesOn(rows[i].next, e) ==> Known(e, listed, rows[i].next.value))
  }

  ghost predicate Tidy(e: Index, listed: Option<seq<Name>>) {
    forall at :: at in Places(e) ==> TidyAt(e, listed, at)
  }

  /** A `when` spelled twice in an expected table leaves the earlier row unpaired. */
  lemma UnpairedTwin(drows: seq<Row>, erows: seq<Row>, d: Index, e: Index, i: nat, j: nat)
    requires i < j < |erows| && erows[i].when == erows[j].when
    ensures PartnerOf(PairedRows(drows, erows, d, e), i).None?
  {
    var rest := ByWhen(erows);
    PartnerFacts(PairedRows(drows, erows, d, e), i);
    PairedAreLast(drows, erows, d, e);
  }

  lemma PairedAreLast(drows: seq<Row>, erows: seq<Row>, d: Index, e: Index)
    ensures forall p :: p in PairedRows(drows, erows, d, e) ==>
      p.1.row.when in ByWhen(erows) && ByWhen(erows)[p.1.row.when] == p.1
  {
    var sorted, rest := Sort(Slots(drows)), ByWhen(erows);
    SortedSlots(drows);
    LiteralFacts(sorted, rest);
    var l := TakeLiteral(sorted, rest);
    LeftPairFacts(l, d, e, true);
    LeftPairFacts(l, d, e, false);
    forall p | p in PairedRows(drows, erows, d, e)
      ensures p.1.row.when in ByWhen(erows) && ByWhen(erows)[p.1.row.when] == p.1
    {
      assert p in l.out || p in LeftPair(l, d, e, true) || p in LeftPair(l, d, e, false);
    }
  }

  /** A reading with nothing dropped means that no expected table spells a `when` twice. */
  lemma NothingDroppedDistinct(d: Index, e: Index, pairs: map<Name, Name>)
    requires Injective(pairs) && Dropped(d, e, pairs) == {}
    ensures AllDistinct(e)
  {
    hide PairedRows;
    forall at, i: nat, j: nat | at in Places(e) && i < j < |RowsAt(e, at)|
      ensures RowsAt(e, at)[i].when != RowsAt(e, at)[j].when
    {
      if RowsAt(e, at)[i].when == RowsAt(e, at)[j].when {
        UnpairedTwin(DraftRowsAt(d, pairs, at), RowsAt(e, at), d, e, i, j);
        var x := ReadRow(d, e, pairs, at, i);
        AllRight(d, e, pairs, x);
        assert false;
      }
    }
  }

  /** A stage paired with its own renaming is found back under it, and another not at all. */
  lemma BackOwn(f: Name -> Name, pairs: map<Name, Name>, w: Name)
    requires Injection(f) && Injective(pairs) && OwnPairs(pairs, f)
    ensures if f(w) in pairs then w in Back(pairs) && Back(pairs)[w] == f(w) else w !in Back(pairs)
  {
    if f(w) in pairs {
      assert f(pairs[f(w)]) == f(w);
    }
    if w in Back(pairs) {
      assert f(pairs[Back(pairs)[w]]) == Back(pairs)[w];
    }
  }

  /** The draft rows read at a known place are the expected rows, renamed. */
  lemma EchoRowsAt(d: Index, e: Index, f: Name -> Name, pairs: map<Name, Name>, at: Place)
    requires Echoes(d, e, f) && Injective(pairs) && OwnPairs(pairs, f)
    ensures at.None? || f(at.value) in pairs ==> DraftRowsAt(d, pairs, at) == RenameRows(f, RowsAt(e, at))
    ensures at.Some? && f(at.value) !in pairs ==> DraftRowsAt(d, pairs, at) == []
  {
    InjectionOf(d, e, f);
    EchoTable(d, e, f, at);
    if at.Some? {
      BackOwn(f, pairs, at.value);
    }
    hide Echoes, OwnPairs, Injection, RenameRows, Back;
  }

  /** What is read of one row, when the tables are the renamed ones. */
  lemma EchoRead(d: Index, e: Index, f: Name -> Name, pairs: map<Name, Name>, at: Place, i: nat)
    requires Echoes(d, e, f) && Injective(pairs) && OwnPairs(pairs, f)
    requires i < |RowsAt(e, at)| && DistinctWhens(RowsAt(e, at))
    ensures var x := ReadRow(d, e, pairs, at, i);
      && x.want == RowsAt(e, at)[i].next
      && (if at.None? || f(at.value) in pairs then x.drafted.Some? && x.Then() == RenameNext(f, x.want)
          else x.drafted.None?)
  {
    hide PairedRows, Echoes, OwnPairs, DraftRowsAt, RenameRows;
    var rows := RowsAt(e, at);
    EchoRowsAt(d, e, f, pairs, at);
    if at.None? || f(at.value) in pairs {
      EchoPairs(d, e, f, rows);
      PartnerIs(RenameRows(f, rows), rows, d, e, i, Slot(i, RenameRows(f, rows)[i]));
    } else {
      PartnerFacts(PairedRows([], rows, d, e), i);
      PairedRowsFacts([], rows, d, e);
    }
  }

  lemma TidyIsRight(d: Index, e: Index, f: Name -> Name, pairs: map<Name, Name>, listed: Option<seq<Name>>, x: Read)
    requires Echoes(d, e, f) && Injective(pairs) && OwnPairs(pairs, f)
    requires forall w :: f(w) in pairs <==> Known(e, listed, w)
    requires Tidy(e, listed) && x in Reads(d, e, pairs)
    ensures Right(x, Reads(d, e, pairs), d, e, pairs)
  {
    hide PairedRows, Reachable, Echoes;
    var at, i :| at in Places(e) && 0 <= i < |RowsAt(e, at)| && x == ReadRow(d, e, pairs, at, i);
    assert TidyAt(e, listed, at);
    EchoRead(d, e, f, pairs, at, i);
    EchoRoutes(d, e, f, x.want);
    if RoutesOn(x.want, e) {
      OwnPair(d, e, f, pairs, x.want.value);
    } else {
      var t := x.Then().value;
      var ends := EndsAt(Reads(d, e, pairs), e, t);
      forall y | y in ends ensures y == x.want {
        EchoEnd(d, e, f, pairs, listed, t, y);
        InjectionAt(d, e, f, y.value, x.want.value);
      }
      assert x.want in ends;
      assert ends == {x.want};
    }
  }

  lemma InjectionAt(d: Index, e: Index, f: Name -> Name, v: Name, w: Name)
    requires Echoes(d, e, f) && f(v) == f(w)
    ensures v == w
  {
  }

  lemma OwnPair(d: Index, e: Index, f: Name -> Name, pairs: map<Name, Name>, w: Name)
    requires Echoes(d, e, f) && OwnPairs(pairs, f) && f(w) in pairs
    ensures pairs[f(w)] == w
  {
    assert f(pairs[f(w)]) == f(w);
  }

  lemma EchoEnd(d: Index, e: Index, f: Name -> Name, pairs: map<Name, Name>, listed: Option<seq<Name>>,
            t: Name, y: Option<Name>)
    requires Echoes(d, e, f) && Injective(pairs) && OwnPairs(pairs, f)
    requires forall w :: f(w) in pairs <==> Known(e, listed, w)
    requires Tidy(e, listed) && y in EndsAt(Reads(d, e, pairs), e, t)
    ensures y.Some? && t == f(y.value)
  {
    hide PairedRows, Reachable, Echoes;
    var x :| x in Reads(d, e, pairs) && x.drafted.Some? && x.Then() == Some(t) && t != ""
      && !RoutesOn(x.want, e) && x.want == y;
    var at, i :| at in Places(e) && 0 <= i < |RowsAt(e, at)| && x == ReadRow(d, e, pairs, at, i);
    assert TidyAt(e, listed, at);
    EchoRead(d, e, f, pairs, at, i);
  }

  lemma RightIsTidy(d: Index, e: Index, f: Name -> Name, pairs: map<Name, Name>, listed: Option<seq<Name>>, at: Place)
    requires Echoes(d, e, f) && Injective(pairs) && OwnPairs(pairs, f)
    requires forall w :: f(w) in pairs <==> Known(e, listed, w)
    requires Dropped(d, e, pairs) == {} && AllDistinct(e) && at in Places(e)
    ensures TidyAt(e, listed, at)
  {
    hide Echoes, AllDistinct, Known, OwnPairs, Dropped;
    var rows := RowsAt(e, at);
    DistinctOf(e, at);
    forall i: nat | i < |rows|
      ensures Truthy(rows[i].next) && (RoutesOn(rows[i].next, e) ==> Known(e, listed, rows[i].next.value))
    {
      RightRow(d, e, f, pairs, listed, at, i);
    }
    if rows != [] {
      RightRow(d, e, f, pairs, listed, at, 0);
    }
  }

  lemma RightRow(d: Index, e: Index, f: Name -> Name, pairs: map<Name, Name>, listed: Option<seq<Name>>,
             at: Place, i: nat)
    requires Echoes(d, e, f) && Injective(pairs) && OwnPairs(pairs, f)
    requires forall w :: f(w) in pairs <==> Known(e, listed, w)
    requires Dropped(d, e, pairs) == {} && at in Places(e)
    requires i < |RowsAt(e, at)| && DistinctWhens(RowsAt(e, at))
    ensures at.Some? ==> Known(e, listed, at.value)
    ensures var next := RowsAt(e, at)[i].next;
      Truthy(next) && (RoutesOn(next, e) ==> Known(e, listed, next.value))
  {
    hide PairedRows, Known, Reads, Dropped, Echoes, Right;
    var x := ReadRow(d, e, pairs, at, i);
    ReadIsThere(d, e, pairs, at, i);
    AllRight(d, e, pairs, x);
    EchoRead(d, e, f, pairs, at, i);
    EchoRoutes(d, e, f, x.want);
    RightMeans(d, e, f, pairs, x);
  }

  lemma DistinctOf(e: Index, at: Place)
    requires AllDistinct(e) && at in Places(e)
    ensures DistinctWhens(RowsAt(e, at))
  {
    hide DistinctWhens, RowsAt, Places;
  }

  lemma RightMeans(d: Index, e: Index, f: Name -> Name, pairs: map<Name, Name>, x: Read)
    requires Injective(pairs) && Right(x, Reads(d, e, pairs), d, e, pairs)
    ensures x.drafted.Some?
    ensures !RoutesOn(x.want, e) ==> Truthy(x.Then())
    ensures RoutesOn(x.want, e) ==> x.Then().Some? && x.Then().value in pairs
  {
    hide Reads, EndsAt;
  }

  lemma ReadIsThere(d: Index, e: Index, pairs: map<Name, Name>, at: Place, i: nat)
    requires Injective(pairs) && at in Places(e) && i < |RowsAt(e, at)|
    ensures ReadRow(d, e, pairs, at, i) in Reads(d, e, pairs)
  {
  }

  /** Nothing is dropped from a renamed draft exactly when the expected bundle is tidy. */
  lemma EchoDropsNoRoute(d: Index, e: Index, f: Name -> Name, listed: Option<seq<Name>>)
    requires Echoes(d, e, f) && d.sel.Some? && EchoesList(d, f, listed)
    ensures Injective(PairedStages(d, e, listed))
    ensures DroppedRoutes(d, e, PairedStages(d, e, listed)) == Some({}) <==> Tidy(e, listed)
  {
    hide PairedStages, Echoes, EchoesList, Reads, Known;
    var pairs := PairedStages(d, e, listed);
    PairedStagesFacts(d, e, listed);
    if Dropped(d, e, pairs) == {} {
      NothingDroppedDistinct(d, e, pairs);
      EchoPaired(d, e, f, listed);
      forall at | at in Places(e) ensures TidyAt(e, listed, at) {
        RightIsTidy(d, e, f, pairs, listed, at);
      }
    }
    if Tidy(e, listed) {
      assert AllDistinct(e) by {
        forall at | at in Places(e) ensures DistinctWhens(RowsAt(e, at)) {
          assert TidyAt(e, listed, at);
        }
      }
      EchoPaired(d, e, f, listed);
      forall x | x in Reads(d, e, pairs) ensures Right(x, Reads(d, e, pairs), d, e, pairs) {
        TidyIsRight(d, e, f, pairs, listed, x);
      }
      DroppedMembers(d, e, pairs);
      assert Dropped(d, e, pairs) == {};
    }
    assert e.sel.Some? by { EchoSel(d, e, f); }
  }

  lemma EchoSel(d: Index, e: Index, f: Name -> Name)
    requires Echoes(d, e, f) && d.sel.Some?
    ensures e.sel.Some?
  {
  }

  // ---- a clean reading of steps

  lemma {:induction false} ConsumesItself(x: seq<string>)
    ensures Consumes(x, x)
  {
    if x != [] { ConsumesItself(x[1..]); }
  }

  /** No step is dropped from a renamed draft exactly when every stage with a step is known. */
  lemma EchoDropsNoStep(d: Index, e: Index, f: Name -> Name, listed: Option<seq<Name>>)
    requires Echoes(d, e, f) && AllDistinct(e) && d.sel.Some? && EchoesList(d, f, listed)
    ensures Injective(PairedStages(d, e, listed))
    ensures DroppedSteps(d, e, PairedStages(d, e, listed)) == {}
       <==> forall w :: w in e.stages && e.stages[w] != [] ==> Known(e, listed, w)
  {
    hide PairedStages, Known, AllDistinct, Echoes, OwnPairs, Kinds, DraftSteps;
    var pairs := PairedStages(d, e, listed);
    PairedStagesFacts(d, e, listed);
    EchoPaired(d, e, f, listed);
    forall w | w in e.stages
      ensures w in DroppedSteps(d, e, pairs) <==> e.stages[w] != [] && !Known(e, listed, w)
    {
      assert f(w) in pairs <==> Known(e, listed, w);
      EchoStage(d, e, f, pairs, w);
    }
  }

  lemma EchoKinds(d: Index, e: Index, f: Name -> Name, w: Name)
    requires Echoes(d, e, f) && w in e.stages
    ensures f(w) in d.stages && Kinds(d.stages[f(w)]) == Kinds(e.stages[w])
  {
  }

  lemma EchoStage(d: Index, e: Index, f: Name -> Name, pairs: map<Name, Name>, w: Name)
    requires Echoes(d, e, f) && Injective(pairs) && OwnPairs(pairs, f) && w in e.stages
    ensures Consumes(Kinds(e.stages[w]), Kinds(DraftSteps(d, pairs, w))) <==> e.stages[w] == [] || f(w) in pairs
  {
    hide Echoes, OwnPairs, Injection, Injective, Kinds, Back;
    InjectionOf(d, e, f);
    BackOwn(f, pairs, w);
    EchoKinds(d, e, f, w);
    ConsumesItself(Kinds(e.stages[w]));
    if f(w) !in pairs {
      assert DraftSteps(d, pairs, w) == [];
      assert Kinds([]) == [];
    }
  }

  // ---- a bundle read against itself

  lemma EchoesItself(b: Index)
    ensures Echoes(b, b, w => w)
  {
    var f := (w: Name) => w;
    assert forall next :: RenameNext(f, next) == next;
    forall rows ensures RenameRows(f, rows) == rows {
      assert forall i :: 0 <= i < |rows| ==> RenameRows(f, rows)[i] == rows[i];
    }
  }

  ghost predicate SelfClean(b: Index) {
    var listed := b.trigger.stages;
    && Injective(PairedStages(b, b, listed))
    && DroppedRoutes(b, b, PairedStages(b, b, listed)) == Some({})
    && DroppedSteps(b, b, PairedStages(b, b, listed)) == {}
  }

  /**
   A bundle with a selection table, read against itself, drops no route and no step exactly when its
   tables are tidy and every stage with a step is one a run reaches or the trigger declares.
   */
  lemma SelfReadsClean(b: Index)
    requires b.sel.Some?
    ensures SelfClean(b) <==>
      Tidy(b, b.trigger.stages) && forall w :: w in b.stages && b.stages[w] != [] ==> Known(b, b.trigger.stages, w)
  {
    hide Echoes, Known, PairedStages, DroppedSteps, Dropped, TidyAt;
    var f := (w: Name) => w;
    var listed := b.trigger.stages;
    EchoesItself(b);
    OwnList(f, listed);
    assert EchoesList(b, f, listed);
    EchoDropsNoRoute(b, b, f, listed);
    if Tidy(b, listed) {
      TidyDistinct(b, listed);
      EchoDropsNoStep(b, b, f, listed);
    }
  }

  lemma OwnList(f: Name -> Name, listed: Option<seq<Name>>)
    requires forall w :: f(w) == w
    ensures listed.Some? ==> RenameList(f, listed.value) == listed.value
  {
  }

  lemma TidyDistinct(e: Index, listed: Option<seq<Name>>)
    requires Tidy(e, listed)
    ensures AllDistinct(e)
  {
    forall at | at in Places(e) ensures DistinctWhens(RowsAt(e, at)) {
      assert TidyAt(e, listed, at);
    }
  }

  ghost predicate NoExcludes(steps: seq<Step>) {
    forall i :: 0 <= i < |steps| ==> steps[i].excludes.None?
  }

  /**
   A stage reads no wrong bar in itself: paired with itself, its barring steps are found; else none has
   `excludes`.
   */
  ghost predicate BarsReadRight(b: Index, w: Name)
    requires w in b.stages
  {
    if Known(b, b.trigger.stages, w) then BarsFindThemselves(b.stages[w]) else NoExcludes(b.stages[w])
  }

  /** Read against itself, a stage that is known is its own counterpart, and another has none. */
  lemma SelfSteps(b: Index)
    requires b.sel.Some? && AllDistinct(b)
    ensures Injective(PairedStages(b, b, b.trigger.stages))
    ensures forall w :: w in b.stages ==>
      (DraftSteps(b, PairedStages(b, b, b.trigger.stages), w)
       == if Known(b, b.trigger.stages, w) then b.stages[w] else [])
  {
    hide Echoes, Known, PairedStages, AllDistinct, DraftSteps;
    var f := (w: Name) => w;
    var listed := b.trigger.stages;
    EchoesItself(b);
    OwnList(f, listed);
    assert EchoesList(b, f, listed);
    EchoPaired(b, b, f, listed);
    PairedStagesFacts(b, b, listed);
    forall w | w in b.stages
      ensures DraftSteps(b, PairedStages(b, b, listed), w) == if Known(b, listed, w) then b.stages[w] else []
    {
      OwnSteps(b, f, PairedStages(b, b, listed), listed, w);
    }
  }

  /**
   A bundle whose tables spell each `when` once reads no wrong bar in itself exactly when every stage does, and
   never a wrong requirement.
   */
  lemma SelfBarsExactly(b: Index)
    requires b.sel.Some? && AllDistinct(b)
    ensures !WrongRequires(b, b)
    ensures Injective(PairedStages(b, b, b.trigger.stages))
    ensures WrongExcludes(b, b, PairedStages(b, b, b.trigger.stages)) == {} <==>
      forall w :: w in b.stages ==> BarsReadRight(b, w)
  {
    SelfSteps(b);
    hide Known, PairedStages, AllDistinct, WrongBars, BarsFindThemselves, NoExcludes, DraftSteps, WrongExcludes;
    var pairs := PairedStages(b, b, b.trigger.stages);
    forall w | w in b.stages
      ensures WrongBars(b.stages[w], DraftSteps(b, pairs, w), 0, 0) == {} <==> BarsReadRight(b, w)
    {
      OwnBarsExactly(b.stages[w]);
      NoCounterpart(b.stages[w]);
    }
    EmptyByStage(b, pairs);
  }

  lemma EmptyByStage(b: Index, pairs: map<Name, Name>)
    requires Injective(pairs)
    ensures WrongExcludes(b, b, pairs) == {} <==>
      forall w :: w in b.stages ==> WrongBars(b.stages[w], DraftSteps(b, pairs, w), 0, 0) == {}
  {
    hide WrongBars, DraftSteps;
    forall w | w in b.stages && WrongBars(b.stages[w], DraftSteps(b, pairs, w), 0, 0) != {}
      ensures WrongExcludes(b, b, pairs) != {}
    {
      var n :| n in WrongBars(b.stages[w], DraftSteps(b, pairs, w), 0, 0);
      assert (w, n) in WrongExcludes(b, b, pairs);
    }
  }

  lemma {:induction false} NoneFound(steps: seq<Step>, n: nat)
    requires n <= |steps|
    ensures WrongBars(steps, [], n, 0) == {} <==> forall i :: n <= i < |steps| ==> steps[i].excludes.None?
    decreases |steps| - n
  {
    if n < |steps| {
      NoneFound(steps, n + 1);
    }
  }

  /** Against a stage with no counterpart, every step with `excludes` is reported. */
  lemma NoCounterpart(steps: seq<Step>)
    ensures WrongBars(steps, [], 0, 0) == {} <==> NoExcludes(steps)
  {
    NoneFound(steps, 0);
  }

  /** A bundle read against itself reads clean in all four ways exactly under all the conditions. */
  lemma SelfReadsAllClean(b: Index)
    requires b.sel.Some?
    ensures SelfClean(b) && WrongExcludes(b, b, PairedStages(b, b, b.trigger.stages)) == {} && !WrongRequires(b, b) <==>
      && Tidy(b, b.trigger.stages)
      && (forall w :: w in b.stages && b.stages[w] != [] ==> Known(b, b.trigger.stages, w))
      && (forall w :: w in b.stages ==> BarsFindThemselves(b.stages[w]))
  {
    SelfReadsClean(b);
    hide SelfClean, Known, BarsFindThemselves, TidyAt, PairedStages, WrongExcludes, WrongRequires, AllDistinct;
    if Tidy(b, b.trigger.stages) {
      TidyDistinct(b, b.trigger.stages);
      SelfBarsExactly(b);
      NoStepsFindThemselves();
      forall w | w in b.stages && (b.stages[w] != [] ==> Known(b, b.trigger.stages, w))
        ensures BarsReadRight(b, w) <==> BarsFindThemselves(b.stages[w])
      {
      }
    }
  }

  lemma NoStepsFindThemselves()
    ensures BarsFindThemselves([]) && NoExcludes([])
  {
  }

  lemma OwnSteps(b: Index, f: Name -> Name, pairs: map<Name, Name>, listed: Option<seq<Name>>, w: Name)
    requires (forall v :: f(v) == v) && Injective(pairs) && OwnPairs(pairs, f) && w in b.stages
    requires forall v :: f(v) in pairs <==> Known(b, listed, v)
    ensures DraftSteps(b, pairs, w) == if Known(b, listed, w) then b.stages[w] else []
  {
    hide Known;
    assert f(w) in pairs <==> Known(b, listed, w);
    if w in pairs {
      assert w == f(pairs[w]);
      assert Back(pairs)[w] == w;
    } else {
      assert forall s :: s in pairs ==> s == f(pairs[s]);
      assert w !in Back(pairs);
    }
  }

  const AWAIT := Step("a", "human_await", None, "k", [], [], None, None)

  /** A process of one stage with two sign-offs, the second of which bars the requester. */
  function TwoSignOffs(w: Name): Index {
    Index(Trigger(None, [], [], Some([w])), Some(Table([], [Row([], Some(w))])), map[],
          map[w := [AWAIT, AWAIT.(excludes := Some(["request"]))]], map[], {})
  }

  /** Read against itself, it is reported: the first sign-off is found where the second is looked for. */
  lemma SecondBarIsMisread(w: Name)
    ensures var b := TwoSignOffs(w);
      && Injective(PairedStages(b, b, b.trigger.stages))
      && WrongExcludes(b, b, PairedStages(b, b, b.trigger.stages)) == {(w, 1)}
  {
    var b := TwoSignOffs(w);
    SecondIsMisread();
    TwoSignOffsFacts(w);
    hide TwoSignOffs, Known, PairedStages, AllDistinct, WrongBars, DraftSteps, WrongExcludes;
    SelfSteps(b);
    OneStage(b, PairedStages(b, b, b.trigger.stages), w, 1);
  }

  lemma TwoSignOffsFacts(w: Name)
    ensures var b := TwoSignOffs(w);
      && b.sel.Some? && AllDistinct(b) && Known(b, b.trigger.stages, w)
      && b.stages == map[w := [AWAIT, AWAIT.(excludes := Some(["request"]))]]
  {
    hide AWAIT;
  }

  lemma OneStage(b: Index, pairs: map<Name, Name>, w: Name, n: nat)
    requires Injective(pairs) && b.stages.Keys == {w}
    requires WrongBars(b.stages[w], DraftSteps(b, pairs, w), 0, 0) == {n}
    ensures WrongExcludes(b, b, pairs) == {(w, n)}
  {
    hide WrongBars, DraftSteps;
    assert n in WrongBars(b.stages[w], DraftSteps(b, pairs, w), 0, 0);
  }

  lemma SecondIsMisread()
    ensures var steps := [AWAIT, AWAIT.(excludes := Some(["request"]))]; WrongBars(steps, steps, 0, 0) == {1}
  {
    var steps := [AWAIT, AWAIT.(excludes := Some(["request"]))];
    assert Find(steps, 0, AWAIT.kind) == 0;
    assert "request" in Names(Some(["request"]));
    assert WrongBars(steps, steps, 2, 1) == {};
    assert WrongBars(steps, steps, 1, 0) == {1};
  }
}
