/**
 `_pair_definitions`: draft stage -> expected stage, by a lock-step walk of two bundles from their
 selection tables, then by place in the two declared lists of stages.
 */
module Walk {
  import opened Options
  import opened Bundles
  import opened Ordering
  import opened Pairing

  type Tables = (seq<Row>, seq<Row>)

  datatype State = State(m: map<Name, Name>, bad: set<Name>, queue: seq<Tables>)

  // ---- the walk as a function

  function TakePair(d: Index, e: Index, st: State, p: Pair): State {
    var dt, et := p.0.row.next, p.1.row.next;
    if !RoutesOn(dt, d) || !RoutesOn(et, e) then st
    else
      var s, t := dt.value, et.value;
      if (s in st.m && st.m[s] != t) || (s !in st.m && t in st.m.Values) then st.(bad := st.bad + {s})
      else if s in st.m then st
      else State(st.m[s := t], st.bad,
                 if s in d.chain && t in e.chain then st.queue + [(d.chain[s].rows, e.chain[t].rows)]
                 else st.queue)
  }

  function TakePairs(d: Index, e: Index, st: State, ps: seq<Pair>): (r: State)
    ensures st.m.Keys <= r.m.Keys
    ensures r.queue == st.queue || d.chain.Keys - r.m.Keys < d.chain.Keys - st.m.Keys
    decreases |ps|
  {
    if ps == [] then st
    else
      var n := |ps| - 1;
      var before := TakePairs(d, e, st, ps[..n]);
      var r := TakePair(d, e, before, ps[n]);
      assert r.queue != before.queue ==> ps[n].0.row.next.value in d.chain.Keys - before.m.Keys;
      r
  }

  function TakeTables(d: Index, e: Index, st: State): State
    requires st.queue != []
  {
    TakePairs(d, e, st.(queue := st.queue[1..]), PairedRows(st.queue[0].0, st.queue[0].1, d, e))
  }

  function Drain(d: Index, e: Index, st: State): State
    decreases d.chain.Keys - st.m.Keys, |st.queue|
  {
    if st.queue == [] then st else Drain(d, e, TakeTables(d, e, st))
  }

  function Begin(d: Index, e: Index): State {
    State(map[], {}, if d.sel.Some? && e.sel.Some? then [(SelRows(d), SelRows(e))] else [])
  }

  /** What the walk pairs: everything it mapped but the stages that met a second partner. */
  function Walked(d: Index, e: Index): map<Name, Name> {
    var st := Drain(d, e, Begin(d, e));
    map s | s in st.m && s !in st.bad :: st.m[s]
  }

  /** The declared lists pair by place, never over a pairing already made. */
  function AddDeclared(m: map<Name, Name>, ds: seq<Name>, es: seq<Name>): map<Name, Name>
    requires |ds| == |es|
    decreases |ds|
  {
    if ds == [] then m
    else AddDeclared(if ds[0] !in m && es[0] !in m.Values then m[ds[0] := es[0]] else m, ds[1..], es[1..])
  }

  function PairedStages(d: Index, e: Index, listed: Option<seq<Name>>): map<Name, Name> {
    var ds := d.trigger.stages;
    if ds.Some? && listed.Some? && |ds.value| == |listed.value|
    then AddDeclared(Walked(d, e), ds.value, listed.value)
    else Walked(d, e)
  }

  lemma DrainOn(d: Index, e: Index, st: State)
    requires st.queue != []
    ensures Drain(d, e, st) == Drain(d, e, TakeTables(d, e, st))
    ensures TakeTables(d, e, st) ==
      TakePairs(d, e, st.(queue := st.queue[1..]), PairedRows(st.queue[0].0, st.queue[0].1, d, e))
  {
    hide PairedRows, TakePairs;
  }

  lemma DrainEmpty(d: Index, e: Index, st: State)
    ensures st.queue == [] ==> Drain(d, e, st) == st
  {
  }

  // ---- the walk as the source runs it

  method PairDefinitions(d: Index, e: Index, listed: Option<seq<Name>>) returns (m: map<Name, Name>)
    ensures m == PairedStages(d, e, listed)
  {
    hide PairedRows, TakePairs, TakeTables, Drain;
    m := map[];
    var bad: set<Name> := {};
    var queue: seq<Tables> := [];
    if d.sel.Some? && e.sel.Some? {
      queue := [(d.sel.value.rows, e.sel.value.rows)];
    }
    while queue != []
      invariant Drain(d, e, State(m, bad, queue)) == Drain(d, e, Begin(d, e))
      decreases d.chain.Keys - m.Keys, |queue|
    {
      ghost var was := State(m, bad, queue);
      var (drows, erows) := queue[0];
      queue := queue[1..];
      var ps := PairRows(drows, erows, d, e);
      m, bad, queue := TakeRows(d, e, m, bad, queue, ps);
      DrainOn(d, e, was);
    }
    DrainEmpty(d, e, State(m, bad, queue));
    m := map s | s in m && s !in bad :: m[s];
    var ds := d.trigger.stages;
    if ds.Some? && listed.Some? && |ds.value| == |listed.value| {
      m := Declare(m, ds.value, listed.value);
    }
  }

  /** The inner loop: each pair of rows of one pair of tables. */
  method TakeRows(d: Index, e: Index, m0: map<Name, Name>, bad0: set<Name>, queue0: seq<Tables>, ps: seq<Pair>)
    returns (m: map<Name, Name>, bad: set<Name>, queue: seq<Tables>)
    ensures State(m, bad, queue) == TakePairs(d, e, State(m0, bad0, queue0), ps)
  {
    m, bad, queue := m0, bad0, queue0;
    var i := 0;
    while i < |ps|
      invariant 0 <= i <= |ps|
      invariant State(m, bad, queue) == TakePairs(d, e, State(m0, bad0, queue0), ps[..i])
    {
      assert ps[..i + 1][..i] == ps[..i];
      var (r, other) := ps[i];
      i := i + 1;
      var dt, et := r.row.next, other.row.next;
      if !Truthy(dt) || !Truthy(et) || dt.value in d.terminals || et.value in e.terminals {
        continue;
      }
      if (dt.value in m && m[dt.value] != et.value) || (dt.value !in m && et.value in m.Values) {
        bad := bad + {dt.value};
        continue;
      }
      if dt.value !in m {
        m := m[dt.value := et.value];
        if dt.value in d.chain && et.value in e.chain {
          queue := queue + [(d.chain[dt.value].rows, e.chain[et.value].rows)];
        }
      }
    }
    assert ps[..i] == ps;
  }

  /** The last loop: the declared stages, by place. */
  method Declare(m0: map<Name, Name>, ds: seq<Name>, es: seq<Name>) returns (m: map<Name, Name>)
    requires |ds| == |es|
    ensures m == AddDeclared(m0, ds, es)
  {
    m := m0;
    var k := 0;
    while k < |ds|
      invariant 0 <= k <= |ds|
      invariant AddDeclared(m, ds[k..], es[k..]) == AddDeclared(m0, ds, es)
    {
      var a, b := ds[k], es[k];
      assert ds[k..][1..] == ds[k + 1..];
      assert es[k..][1..] == es[k + 1..];
      if a !in m && b !in m.Values {
        m := m[a := b];
      }
      k := k + 1;
    }
  }

  // ---- lock-step paths

  /** Some pair of the two tables goes on to `s` in the draft and to `t` in the expected bundle. */
  ghost predicate Linked(d: Index, e: Index, tables: Tables, s: Name, t: Name) {
    exists p :: p in PairedRows(tables.0, tables.1, d, e) && LinksTo(p, d, e, s, t)
  }

  predicate LinksTo(p: Pair, d: Index, e: Index, s: Name, t: Name) {
    p.0.row.next == Some(s) && p.1.row.next == Some(t) && RoutesOn(Some(s), d) && RoutesOn(Some(t), e)
  }

  /** The chaining tables of a pair of stages, when both have one. */
  ghost predicate Chained(d: Index, e: Index, s: Name, t: Name) {
    s in d.chain && t in e.chain
  }

  function ChainTables(d: Index, e: Index, s: Name, t: Name): Tables {
    (ChainRows(d, s), ChainRows(e, t))
  }

  /** Equal-length paths through both bundles, one pair of rows after another. */
  ghost predicate LockStep(d: Index, e: Index, path: seq<(Name, Name)>) {
    && path != []
    && d.sel.Some? && e.sel.Some?
    && Linked(d, e, (SelRows(d), SelRows(e)), path[0].0, path[0].1)
    && forall i :: 0 <= i < |path| - 1 ==> StepsTo(d, e, path[i], path[i + 1])
  }

  ghost predicate StepsTo(d: Index, e: Index, from: (Name, Name), to: (Name, Name)) {
    Chained(d, e, from.0, from.1) && Linked(d, e, ChainTables(d, e, from.0, from.1), to.0, to.1)
  }

  ghost predicate Reached(d: Index, e: Index, s: Name, t: Name) {
    exists path :: LockStep(d, e, path) && path[|path| - 1] == (s, t)
  }

  lemma ReachedFromSel(d: Index, e: Index, s: Name, t: Name)
    requires d.sel.Some? && e.sel.Some? && Linked(d, e, (SelRows(d), SelRows(e)), s, t)
    ensures Reached(d, e, s, t)
  {
    var path := [(s, t)];
    assert LockStep(d, e, path);
  }

  lemma ReachedFromStage(d: Index, e: Index, from: (Name, Name), to: (Name, Name))
    requires Reached(d, e, from.0, from.1) && StepsTo(d, e, from, to)
    ensures Reached(d, e, to.0, to.1)
  {
    hide StepsTo, Linked;
    var path :| LockStep(d, e, path) && path[|path| - 1] == from;
    var longer := path + [to];
    forall i | 0 <= i < |longer| - 1 ensures StepsTo(d, e, longer[i], longer[i + 1]) {
      if i < |path| - 1 { assert StepsTo(d, e, path[i], path[i + 1]); }
    }
    assert LockStep(d, e, longer);
  }

  // ---- what the walk keeps at every step

  /** The two tables are the selection tables or those of a pair of stages the walk reached. */
  ghost predicate KnownTables(d: Index, e: Index, m: map<Name, Name>, tables: Tables) {
    || (d.sel.Some? && e.sel.Some? && tables == (SelRows(d), SelRows(e)))
    || exists s :: s in m && Chained(d, e, s, m[s]) && tables == ChainTables(d, e, s, m[s])
  }

  ghost predicate Sound(d: Index, e: Index, st: State) {
    && Injective(st.m)
    && (forall s :: s in st.m ==> Reached(d, e, s, st.m[s]))
    && (forall s :: s in st.m ==> RoutesOn(Some(s), d) && RoutesOn(Some(st.m[s]), e))
    && (forall i :: 0 <= i < |st.queue| ==> KnownTables(d, e, st.m, st.queue[i]))
  }

  ghost predicate Grown(st: State, st': State) {
    && (forall s :: s in st.m ==> s in st'.m && st'.m[s] == st.m[s])
    && st.bad <= st'.bad
    && (forall x :: x in st.queue ==> x in st'.queue)
  }

  /** The link is in the map, or its draft stage is set aside for having two partners. */
  ghost predicate Settled(st: State, s: Name, t: Name) {
    s in st.bad || (s in st.m && st.m[s] == t)
  }

  ghost predicate AllSettled(d: Index, e: Index, st: State, tables: Tables) {
    forall s, t :: Linked(d, e, tables, s, t) ==> Settled(st, s, t)
  }

  ghost predicate Handled(d: Index, e: Index, st: State, tables: Tables) {
    tables in st.queue || AllSettled(d, e, st, tables)
  }

  ghost predicate Closed(d: Index, e: Index, st: State) {
    && (d.sel.Some? && e.sel.Some? ==> Handled(d, e, st, (SelRows(d), SelRows(e))))
    && (forall s :: s in st.m && Chained(d, e, s, st.m[s]) ==>
          Handled(d, e, st, ChainTables(d, e, s, st.m[s])))
  }

  lemma LinkReached(d: Index, e: Index, st: State, tables: Tables, s: Name, t: Name)
    requires Sound(d, e, st) && KnownTables(d, e, st.m, tables) && Linked(d, e, tables, s, t)
    ensures Reached(d, e, s, t)
  {
    if d.sel.Some? && e.sel.Some? && tables == (SelRows(d), SelRows(e)) {
      ReachedFromSel(d, e, s, t);
    } else {
      var from :| from in st.m && Chained(d, e, from, st.m[from]) && tables == ChainTables(d, e, from, st.m[from]);
      ReachedFromStage(d, e, (from, st.m[from]), (s, t));
    }
  }

  lemma TakePairKeeps(d: Index, e: Index, st: State, tables: Tables, p: Pair)
    requires Sound(d, e, st) && KnownTables(d, e, st.m, tables)
    requires p in PairedRows(tables.0, tables.1, d, e)
    ensures var r := TakePair(d, e, st, p);
      && Sound(d, e, r) && Grown(st, r) && KnownTables(d, e, r.m, tables)
      && (forall s, t :: LinksTo(p, d, e, s, t) ==> Settled(r, s, t))
      && (forall s :: s in r.m && s !in st.m && Chained(d, e, s, r.m[s]) ==>
            ChainTables(d, e, s, r.m[s]) in r.queue)
  {
    hide Sound, KnownTables, PairedRows, Linked, ChainTables, RoutesOn;
    var dt, et := p.0.row.next, p.1.row.next;
    RoutesToSome(dt, d);
    RoutesToSome(et, e);
    if RoutesOn(dt, d) && RoutesOn(et, e) {
      LinkedBy(d, e, tables, p, dt.value, et.value);
      ChainTablesAre(d, e, dt.value, et.value);
      if dt.value !in st.m && et.value !in st.m.Values {
        NewPairKeeps(d, e, st, tables, dt.value, et.value);
      } else {
        BadKeeps(d, e, st, TakePair(d, e, st, p).bad);
      }
    }
  }

  lemma RoutesToSome(next: Option<Name>, ix: Index)
    ensures RoutesOn(next, ix) ==> next.Some?
  {
  }

  lemma LinkedBy(d: Index, e: Index, tables: Tables, p: Pair, s: Name, t: Name)
    requires p in PairedRows(tables.0, tables.1, d, e)
    requires p.0.row.next == Some(s) && p.1.row.next == Some(t) && RoutesOn(Some(s), d) && RoutesOn(Some(t), e)
    ensures LinksTo(p, d, e, s, t) && Linked(d, e, tables, s, t)
  {
    hide PairedRows;
    assert LinksTo(p, d, e, s, t);
  }

  lemma ChainTablesAre(d: Index, e: Index, s: Name, t: Name)
    ensures Chained(d, e, s, t) ==> ChainTables(d, e, s, t) == (d.chain[s].rows, e.chain[t].rows)
  {
  }

  /** Setting a stage aside changes nothing of what is sound. */
  lemma BadKeeps(d: Index, e: Index, st: State, bad: set<Name>)
    requires Sound(d, e, st)
    ensures Sound(d, e, st.(bad := bad))
  {
    hide Reached, KnownTables;
  }

  lemma NewPairKeeps(d: Index, e: Index, st: State, tables: Tables, s: Name, t: Name)
    requires Sound(d, e, st) && KnownTables(d, e, st.m, tables)
    requires Linked(d, e, tables, s, t)
    requires s !in st.m && t !in st.m.Values
    ensures var r := State(st.m[s := t], st.bad,
            if Chained(d, e, s, t) then st.queue + [ChainTables(d, e, s, t)] else st.queue);
      && Sound(d, e, r) && Grown(st, r) && KnownTables(d, e, r.m, tables)
      && (Chained(d, e, s, t) ==> ChainTables(d, e, s, t) in r.queue)
  {
    hide PairedRows, Linked, Reached, KnownTables, ChainTables, Injective;
    var m' := st.m[s := t];
    var q := if Chained(d, e, s, t) then st.queue + [ChainTables(d, e, s, t)] else st.queue;
    LinkReached(d, e, st, tables, s, t);
    LinkRoutes(d, e, tables, s, t);
    InjectiveMore(st.m, s, t);
    KnownGrows(d, e, st.m, m', tables);
    forall i | 0 <= i < |q| ensures KnownTables(d, e, m', q[i]) {
      if i < |st.queue| {
        KnownGrows(d, e, st.m, m', st.queue[i]);
      } else {
        KnownChain(d, e, m', s);
      }
    }
    if Chained(d, e, s, t) {
      assert q[|st.queue|] == ChainTables(d, e, s, t);
    }
  }

  lemma LinkRoutes(d: Index, e: Index, tables: Tables, s: Name, t: Name)
    requires Linked(d, e, tables, s, t)
    ensures RoutesOn(Some(s), d) && RoutesOn(Some(t), e)
  {
    hide PairedRows;
  }

  lemma InjectiveMore(m: map<Name, Name>, s: Name, t: Name)
    requires Injective(m) && s !in m && t !in m.Values
    ensures Injective(m[s := t])
  {
    var m' := m[s := t];
    forall a, b | a in m' && b in m' && m'[a] == m'[b] ensures a == b {
      assert a in m ==> m[a] in m.Values;
      assert b in m ==> m[b] in m.Values;
    }
  }

  lemma KnownChain(d: Index, e: Index, m: map<Name, Name>, s: Name)
    requires s in m && Chained(d, e, s, m[s])
    ensures KnownTables(d, e, m, ChainTables(d, e, s, m[s]))
  {
  }

  lemma KnownGrows(d: Index, e: Index, m: map<Name, Name>, m': map<Name, Name>, tables: Tables)
    requires KnownTables(d, e, m, tables)
    requires forall s :: s in m ==> s in m' && m'[s] == m[s]
    ensures KnownTables(d, e, m', tables)
  {
    if !(d.sel.Some? && e.sel.Some? && tables == (SelRows(d), SelRows(e))) {
      var s :| s in m && Chained(d, e, s, m[s]) && tables == ChainTables(d, e, s, m[s]);
      assert s in m' && Chained(d, e, s, m'[s]) && tables == ChainTables(d, e, s, m'[s]);
    }
  }

  lemma {:induction false} TakePairsKeeps(d: Index, e: Index, st: State, tables: Tables, ps: seq<Pair>)
    requires Sound(d, e, st) && KnownTables(d, e, st.m, tables)
    requires forall p :: p in ps ==> p in PairedRows(tables.0, tables.1, d, e)
    ensures var r := TakePairs(d, e, st, ps);
      && Sound(d, e, r) && Grown(st, r) && KnownTables(d, e, r.m, tables)
      && (forall p, s, t :: p in ps && LinksTo(p, d, e, s, t) ==> Settled(r, s, t))
      && (forall s :: s in r.m && s !in st.m && Chained(d, e, s, r.m[s]) ==>
            ChainTables(d, e, s, r.m[s]) in r.queue)
    decreases |ps|
  {
    if ps != [] {
      var n := |ps| - 1;
      var before := TakePairs(d, e, st, ps[..n]);
      TakePairsKeeps(d, e, st, tables, ps[..n]);
      TakePairKeeps(d, e, before, tables, ps[n]);
      var r := TakePair(d, e, before, ps[n]);
      forall p, s, t | p in ps && LinksTo(p, d, e, s, t) ensures Settled(r, s, t) {
        if p != ps[n] {
          assert p in ps[..n];
          assert Settled(before, s, t);
        }
      }
    }
  }

  /** Taking one pair of tables off the queue keeps soundness and closure. */
  lemma TakeTablesKeeps(d: Index, e: Index, st: State)
    requires st.queue != [] && Sound(d, e, st) && Closed(d, e, st)
    ensures Sound(d, e, TakeTables(d, e, st)) && Closed(d, e, TakeTables(d, e, st))
  {
    var tables := st.queue[0];
    var ps := PairedRows(tables.0, tables.1, d, e);
    var popped := st.(queue := st.queue[1..]);
    assert Sound(d, e, popped) by {
      assert forall i :: 0 <= i < |popped.queue| ==> popped.queue[i] == st.queue[i + 1];
    }
    TakePairsKeeps(d, e, popped, tables, ps);
    var r := TakeTables(d, e, st);
    assert AllSettled(d, e, r, tables);
    if d.sel.Some? && e.sel.Some? {
      HandledAfter(d, e, st, r, (SelRows(d), SelRows(e)));
    }
    forall s | s in r.m && Chained(d, e, s, r.m[s]) ensures Handled(d, e, r, ChainTables(d, e, s, r.m[s])) {
      if s in st.m {
        HandledAfter(d, e, st, r, ChainTables(d, e, s, r.m[s]));
      }
    }
  }

  lemma HandledAfter(d: Index, e: Index, st: State, r: State, tables: Tables)
    requires st.queue != [] && Grown(st.(queue := st.queue[1..]), r)
    requires AllSettled(d, e, r, st.queue[0]) && Handled(d, e, st, tables)
    ensures Handled(d, e, r, tables)
  {
    if tables in st.queue {
      var i :| 0 <= i < |st.queue| && st.queue[i] == tables;
      if i > 0 { assert st.queue[1..][i - 1] == tables; }
    } else {
      forall s, t | Linked(d, e, tables, s, t) ensures Settled(r, s, t) {
        assert Settled(st, s, t);
      }
    }
  }

  lemma {:induction false} DrainKeeps(d: Index, e: Index, st: State)
    requires Sound(d, e, st) && Closed(d, e, st)
    ensures var r := Drain(d, e, st);
      Sound(d, e, r) && Closed(d, e, r) && r.queue == []
    decreases d.chain.Keys - st.m.Keys, |st.queue|
  {
    if st.queue != [] {
      TakeTablesKeeps(d, e, st);
      DrainKeeps(d, e, TakeTables(d, e, st));
    }
  }

  lemma BeginKeeps(d: Index, e: Index)
    ensures Sound(d, e, Begin(d, e)) && Closed(d, e, Begin(d, e))
  {
    var st := Begin(d, e);
    if d.sel.Some? && e.sel.Some? {
      assert st.queue[0] == (SelRows(d), SelRows(e));
    }
  }

  // ---- the promises

  /**
   The walk pairs one to one, each pair it makes is the end of equal-length lock-step paths from
   both selection tables, and neither bundle ends at a name of a pair.
   */
  lemma WalkedFacts(d: Index, e: Index)
    ensures var m := Walked(d, e);
      && Injective(m)
      && (forall s :: s in m ==> Reached(d, e, s, m[s]))
      && (forall s :: s in m ==> RoutesOn(Some(s), d) && RoutesOn(Some(m[s]), e))
  {
    BeginKeeps(d, e);
    DrainKeeps(d, e, Begin(d, e));
  }

  /** A stage the walk pairs meets the same partner at every link out of every pair it made. */
  lemma WalkedIsConsistent(d: Index, e: Index, from: Name, s: Name, t: Name)
    requires from in Walked(d, e) && StepsTo(d, e, (from, Walked(d, e)[from]), (s, t))
    ensures s in Walked(d, e) ==> Walked(d, e)[s] == t
  {
    BeginKeeps(d, e);
    DrainKeeps(d, e, Begin(d, e));
    var r := Drain(d, e, Begin(d, e));
    assert Handled(d, e, r, ChainTables(d, e, from, r.m[from]));
    assert Settled(r, s, t);
  }

  // ---- what the walk does not lose

  /** Whatever lock-step path reaches one of the two stages reaches it with the other. */
  ghost predicate Unrivalled(d: Index, e: Index, s: Name, t: Name) {
    forall s', t' :: Reached(d, e, s', t') ==> (s' == s <==> t' == t)
  }

  /** A stage is set aside only when it has met a rival. */
  ghost predicate BadAreRivalled(d: Index, e: Index, st: State) {
    forall s, t :: s in st.bad && Reached(d, e, s, t) ==> !Unrivalled(d, e, s, t)
  }

  lemma RivalsOf(d: Index, e: Index, s: Name, t: Name, s': Name, t': Name)
    requires Reached(d, e, s, t) && Reached(d, e, s', t') && (s == s' <==> t != t')
    ensures forall t'' :: Reached(d, e, s, t'') ==> !Unrivalled(d, e, s, t'')
  {
    hide Reached;
  }

  lemma TakePairRivals(d: Index, e: Index, st: State, tables: Tables, p: Pair)
    requires Sound(d, e, st) && BadAreRivalled(d, e, st) && KnownTables(d, e, st.m, tables)
    requires p in PairedRows(tables.0, tables.1, d, e)
    ensures BadAreRivalled(d, e, TakePair(d, e, st, p))
  {
    hide KnownTables, PairedRows, Linked, Reached, RoutesOn, Injective, Unrivalled;
    var dt, et := p.0.row.next, p.1.row.next;
    RoutesToSome(dt, d);
    RoutesToSome(et, e);
    if RoutesOn(dt, d) && RoutesOn(et, e) {
      LinkedBy(d, e, tables, p, dt.value, et.value);
      LinkReached(d, e, st, tables, dt.value, et.value);
      if dt.value in st.m {
        if st.m[dt.value] != et.value { RivalsOf(d, e, dt.value, et.value, dt.value, st.m[dt.value]); }
      } else if et.value in st.m.Values {
        var s' :| s' in st.m && st.m[s'] == et.value;
        RivalsOf(d, e, dt.value, et.value, s', et.value);
      }
    }
  }

  lemma {:induction false} TakePairsRivals(d: Index, e: Index, st: State, tables: Tables, ps: seq<Pair>)
    requires Sound(d, e, st) && BadAreRivalled(d, e, st) && KnownTables(d, e, st.m, tables)
    requires forall p :: p in ps ==> p in PairedRows(tables.0, tables.1, d, e)
    ensures BadAreRivalled(d, e, TakePairs(d, e, st, ps))
    decreases |ps|
  {
    hide BadAreRivalled, Sound, KnownTables, PairedRows, TakePair, Linked, Grown;
    hide LinksTo, Settled, ChainTables, Chained;
    if ps != [] {
      var n := |ps| - 1;
      TakePairsRivals(d, e, st, tables, ps[..n]);
      TakePairsKeeps(d, e, st, tables, ps[..n]);
      TakePairRivals(d, e, TakePairs(d, e, st, ps[..n]), tables, ps[n]);
    }
  }

  lemma {:induction false} DrainRivals(d: Index, e: Index, st: State)
    requires Sound(d, e, st) && Closed(d, e, st) && BadAreRivalled(d, e, st)
    ensures BadAreRivalled(d, e, Drain(d, e, st))
    decreases d.chain.Keys - st.m.Keys, |st.queue|
  {
    if st.queue != [] {
      var tables := st.queue[0];
      var popped := st.(queue := st.queue[1..]);
      assert Sound(d, e, popped) by {
        assert forall i :: 0 <= i < |popped.queue| ==> popped.queue[i] == st.queue[i + 1];
      }
      TakePairsRivals(d, e, popped, tables, PairedRows(tables.0, tables.1, d, e));
      TakeTablesKeeps(d, e, st);
      DrainRivals(d, e, TakeTables(d, e, st));
    }
  }

  /**
   A link out of the selection tables, or of a pair the walk made, to two stages with no rival is in the pairing,
   whatever other stages meet two partners.
   */
  lemma LinkIsWalked(d: Index, e: Index, tables: Tables, s: Name, t: Name)
    requires KnownTables(d, e, Walked(d, e), tables) && Linked(d, e, tables, s, t)
    requires Reached(d, e, s, t) && Unrivalled(d, e, s, t)
    ensures s in Walked(d, e) && Walked(d, e)[s] == t
  {
    hide Linked, Reached, Unrivalled, Drain, PairedRows;
    BeginKeeps(d, e);
    DrainKeeps(d, e, Begin(d, e));
    DrainRivals(d, e, Begin(d, e));
    var r := Drain(d, e, Begin(d, e));
    assert Handled(d, e, r, tables);
    assert Settled(r, s, t);
  }

  /** Every pair of stages on the path is without a rival. */
  ghost predicate UnrivalledPath(d: Index, e: Index, path: seq<(Name, Name)>) {
    LockStep(d, e, path) && forall i :: 0 <= i < |path| ==> Unrivalled(d, e, path[i].0, path[i].1)
  }

  /** A lock-step path none of whose pairs has a rival is walked to its end. */
  lemma {:induction false} UnrivalledIsWalked(d: Index, e: Index, path: seq<(Name, Name)>)
    requires UnrivalledPath(d, e, path)
    ensures var (s, t) := path[|path| - 1]; s in Walked(d, e) && Walked(d, e)[s] == t
    decreases |path|
  {
    hide PairedRows, Linked, Walked, Unrivalled;
    var n := |path| - 1;
    var (s, t) := path[n];
    assert Reached(d, e, s, t);
    if n == 0 {
      LinkIsWalked(d, e, (SelRows(d), SelRows(e)), s, t);
    } else {
      var shorter := path[..n];
      assert forall i :: 0 <= i < |shorter| - 1 ==> StepsTo(d, e, path[i], path[i + 1]);
      assert LockStep(d, e, shorter);
      UnrivalledIsWalked(d, e, shorter);
      assert StepsTo(d, e, path[n - 1], path[n]);
      KnownChain(d, e, Walked(d, e), path[n - 1].0);
      LinkIsWalked(d, e, ChainTables(d, e, path[n - 1].0, path[n - 1].1), s, t);
    }
  }

  /** Lock-step paths pair stages one to one. */
  ghost predicate OneToOne(d: Index, e: Index) {
    forall s, t :: Reached(d, e, s, t) ==> Unrivalled(d, e, s, t)
  }

  /** Where lock-step paths pair stages one to one, the walk pairs exactly the stages they reach. */
  lemma WalkedExactly(d: Index, e: Index)
    requires OneToOne(d, e)
    ensures forall s, t :: Reached(d, e, s, t) <==> s in Walked(d, e) && Walked(d, e)[s] == t
  {
    hide Linked, Walked, StepsTo, RoutesOn, Injective, Unrivalled;
    WalkedFacts(d, e);
    forall s, t ensures Reached(d, e, s, t) <==> s in Walked(d, e) && Walked(d, e)[s] == t {
      if Reached(d, e, s, t) {
        var path: seq<(Name, Name)> :| LockStep(d, e, path) && path[|path| - 1] == (s, t);
        forall i | 0 <= i < |path| ensures Unrivalled(d, e, path[i].0, path[i].1) {
          PrefixReached(d, e, path, i);
        }
        UnrivalledIsWalked(d, e, path);
      }
    }
  }

  lemma PrefixReached(d: Index, e: Index, path: seq<(Name, Name)>, i: nat)
    requires LockStep(d, e, path) && i < |path|
    ensures Reached(d, e, path[i].0, path[i].1)
  {
    hide Linked, StepsTo;
    var front := path[..i + 1];
    assert forall k :: 0 <= k < |front| - 1 ==> StepsTo(d, e, path[k], path[k + 1]);
    assert LockStep(d, e, front);
  }

  /** The declared lists keep the pairing one to one and never change a pair the walk made. */
  lemma {:induction false} AddDeclaredKeeps(m: map<Name, Name>, ds: seq<Name>, es: seq<Name>)
    requires |ds| == |es| && Injective(m)
    ensures var r := AddDeclared(m, ds, es);
      && Injective(r)
      && (forall s :: s in m ==> s in r && r[s] == m[s])
      && (forall s :: s in r && s !in m ==> exists i :: 0 <= i < |ds| && ds[i] == s && es[i] == r[s])
    decreases |ds|
  {
    if ds != [] {
      var m' := if ds[0] !in m && es[0] !in m.Values then m[ds[0] := es[0]] else m;
      forall a, b | a in m' && b in m' && m'[a] == m'[b] ensures a == b {
        assert a in m ==> m[a] in m.Values;
        assert b in m ==> m[b] in m.Values;
      }
      AddDeclaredKeeps(m', ds[1..], es[1..]);
      var r := AddDeclared(m, ds, es);
      forall s | s in r && s !in m ensures exists i :: 0 <= i < |ds| && ds[i] == s && es[i] == r[s] {
        if s in m' {
          assert ds[0] == s && es[0] == r[s];
        } else {
          var i :| 0 <= i < |ds[1..]| && ds[1..][i] == s && es[1..][i] == r[s];
          assert ds[i + 1] == s && es[i + 1] == r[s];
        }
      }
    }
  }

  /** Neither declared list names the stage of this place at an earlier one, and the walk paired neither stage. */
  ghost predicate FreePlace(m: map<Name, Name>, ds: seq<Name>, es: seq<Name>, i: nat) {
    && i < |ds| == |es| && ds[i] !in m && es[i] !in m.Values
    && forall k: nat :: k < i ==> ds[k] != ds[i] && es[k] != es[i]
  }

  /** A place free of all that comes before it is paired, and no place is left with neither stage paired. */
  lemma {:induction false} AddDeclaredTakes(m: map<Name, Name>, ds: seq<Name>, es: seq<Name>, i: nat)
    requires i < |ds| == |es|
    ensures var r := AddDeclared(m, ds, es);
      && (ds[i] in r || es[i] in r.Values)
      && (FreePlace(m, ds, es, i) ==> ds[i] in r && r[ds[i]] == es[i])
    decreases |ds|
  {
    var m' := if ds[0] !in m && es[0] !in m.Values then m[ds[0] := es[0]] else m;
    if i == 0 {
      assert ds[0] in m' || es[0] in m'.Values;
      AddDeclaredStays(m', ds[1..], es[1..]);
      assert FreePlace(m, ds, es, 0) ==> ds[0] in m' && m'[ds[0]] == es[0];
    } else {
      AddDeclaredTakes(m', ds[1..], es[1..], i - 1);
      if FreePlace(m, ds, es, i) {
        assert ds[0] != ds[i] && es[0] != es[i];
        assert es[i] !in m'.Values by {
          forall s | s in m' ensures m'[s] != es[i] {
            assert s in m ==> m[s] in m.Values;
          }
        }
        forall k: nat | k < i - 1 ensures ds[1..][k] != ds[i] && es[1..][k] != es[i] {
          assert ds[k + 1] != ds[i] && es[k + 1] != es[i];
        }
      }
    }
  }

  lemma {:induction false} AddDeclaredStays(m: map<Name, Name>, ds: seq<Name>, es: seq<Name>)
    requires |ds| == |es|
    ensures var r := AddDeclared(m, ds, es);
      (forall s :: s in m ==> s in r && r[s] == m[s]) && m.Values <= r.Values
    decreases |ds|
  {
    if ds != [] {
      var m' := if ds[0] !in m && es[0] !in m.Values then m[ds[0] := es[0]] else m;
      AddDeclaredStays(m', ds[1..], es[1..]);
    }
    var r := AddDeclared(m, ds, es);
    forall t | t in m.Values ensures t in r.Values {
      var s :| s in m && m[s] == t;
      assert r[s] == t;
    }
  }

  /**
   The whole pairing is one to one; beyond the walk it holds only declared stages, by place, and every free place
   of two lists of one length.
   */
  lemma PairedStagesFacts(d: Index, e: Index, listed: Option<seq<Name>>)
    ensures var r := PairedStages(d, e, listed);
      && Injective(r)
      && (forall s :: s in Walked(d, e) ==> s in r && r[s] == Walked(d, e)[s])
      && (forall s :: s in r && s !in Walked(d, e) ==>
            && d.trigger.stages.Some? && listed.Some?
            && |d.trigger.stages.value| == |listed.value|
            && exists i :: 0 <= i < |listed.value| && d.trigger.stages.value[i] == s && listed.value[i] == r[s])
    ensures d.trigger.stages.Some? && listed.Some? && |d.trigger.stages.value| == |listed.value| ==>
      var r, ds, es := PairedStages(d, e, listed), d.trigger.stages.value, listed.value;
      forall i: nat :: i < |es| ==>
        && (ds[i] in r || es[i] in r.Values)
        && (FreePlace(Walked(d, e), ds, es, i) ==> ds[i] in r && r[ds[i]] == es[i])
  {
    hide FreePlace, Walked;
    WalkedFacts(d, e);
    var ds := d.trigger.stages;
    if ds.Some? && listed.Some? && |ds.value| == |listed.value| {
      AddDeclaredKeeps(Walked(d, e), ds.value, listed.value);
      forall i: nat | i < |listed.value|
        ensures var r := PairedStages(d, e, listed);
          && (ds.value[i] in r || listed.value[i] in r.Values)
          && (FreePlace(Walked(d, e), ds.value, listed.value, i) ==>
                ds.value[i] in r && r[ds.value[i]] == listed.value[i])
      {
        AddDeclaredTakes(Walked(d, e), ds.value, listed.value, i);
      }
    }
  }
}
