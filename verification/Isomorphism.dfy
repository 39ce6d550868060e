/**
 What the canonical form means: its stages are the reachable ones, and two bundles have one form
 exactly when a one-to-one renaming of reachable stages carries one to the other.
 */
module Isomorphism {
  import opened Options
  import opened Basics
  import opened Bundles
  import opened Ordering
  import opened Canonical

  // ---- words and reachability, defined apart from the search

  /** The words of the selection table, and of the table behind a stage; one that is not there has none. */
  ghost function FirstWords(ix: Index): (r: multiset<string>)
    ensures r == SelMatches(ix)
  {
    match ix.sel
    case Some(table) => multiset(table.matches)
    case None => multiset{}
  }

  ghost function WordsBehind(ix: Index, w: Name): (r: multiset<string>)
    ensures r == MatchesOf(ix, w)
  {
    if w !in ix.chain then multiset{} else multiset(ix.chain[w].matches)
  }

  /** Some row of `rows` leads to `w`, a stage of the bundle that is none of its terminals. */
  ghost predicate LeadsTo(ix: Index, rows: seq<Row>, w: Name) {
    w !in ix.terminals && w in ix.stages && exists i :: 0 <= i < |rows| && rows[i].next == Some(w)
  }

  ghost predicate ReachesIn(ix: Index, w: Name, n: nat)
    decreases n
  {
    if n == 0 then LeadsTo(ix, FirstRows(ix), w)
    else exists v :: ReachesIn(ix, v, n - 1) && LeadsTo(ix, RowsBehind(ix, v), w)
  }

  /** A case can get from the selection table to the stage `w`. */
  ghost predicate Reaches(ix: Index, w: Name) {
    exists n: nat :: ReachesIn(ix, w, n)
  }

  lemma ReachesNext(ix: Index, v: Name, w: Name)
    requires Reaches(ix, v) && LeadsTo(ix, ChainRows(ix, v), w)
    ensures Reaches(ix, w)
  {
    var n: nat :| ReachesIn(ix, v, n);
    assert RowsBehind(ix, v) == ChainRows(ix, v);
    assert ReachesIn(ix, w, n + 1);
  }

  // ---- the search finds exactly the reachable stages

  lemma {:induction false} SlotsVisited(ix: Index, found: seq<Name>, s: seq<Slot>)
    ensures forall w :: w in VisitSlots(ix, found, s) <==>
      w in found || (IsStage(ix, Some(w)) && exists i :: 0 <= i < |s| && s[i].row.next == Some(w))
  {
    if s != [] {
      var n := |s| - 1;
      SlotsVisited(ix, found, s[..n]);
      forall w ensures (exists i :: 0 <= i < |s| && s[i].row.next == Some(w)) <==>
        (s[n].row.next == Some(w) || exists i :: 0 <= i < n && s[..n][i].row.next == Some(w))
      {
        if i :| 0 <= i < n && s[..n][i].row.next == Some(w) {
          assert s[i].row.next == Some(w);
        }
        if i :| 0 <= i < |s| && s[i].row.next == Some(w) {
          if i < n { assert s[..n][i].row.next == Some(w); }
        }
      }
    }
  }

  lemma Visited(ix: Index, found: seq<Name>, rows: seq<Row>)
    ensures forall w :: w in Visit(ix, found, rows) <==> w in found || LeadsTo(ix, rows, w)
  {
    var s := Sort(Slots(rows));
    SlotsVisited(ix, found, s);
    forall w ensures (exists i :: 0 <= i < |s| && s[i].row.next == Some(w))
      <==> (exists i :: 0 <= i < |rows| && rows[i].next == Some(w))
    {
      if i :| 0 <= i < |s| && s[i].row.next == Some(w) {
        SortMembers(Slots(rows), s[i]);
        assert rows[s[i].pos].next == Some(w);
      }
      if i :| 0 <= i < |rows| && rows[i].next == Some(w) {
        SortMembers(Slots(rows), Slot(i, rows[i]));
        assert Slots(rows)[i] == Slot(i, rows[i]);
        var k :| 0 <= k < |s| && s[k] == Slot(i, rows[i]);
        assert s[k].row.next == Some(w);
      }
    }
  }

  lemma VisitReaches(ix: Index, found: seq<Name>, i: nat)
    requires i < |found| && forall w :: w in found ==> Reaches(ix, w)
    ensures forall w :: w in Visit(ix, found, ChainRows(ix, found[i])) ==> Reaches(ix, w)
  {
    hide LeadsTo, Reaches;
    var more := Visit(ix, found, ChainRows(ix, found[i]));
    Visited(ix, found, ChainRows(ix, found[i]));
    forall w | w in more ensures Reaches(ix, w) {
      if w !in found { ReachesNext(ix, found[i], w); }
    }
  }

  /** Every stage that the tables behind the first `i` stages lead to has been found. */
  ghost predicate ClosedTo(ix: Index, found: seq<Name>, i: nat) {
    forall k, w :: 0 <= k < i <= |found| && LeadsTo(ix, ChainRows(ix, found[k]), w) ==> w in found
  }

  lemma {:induction false} Explored(ix: Index, found: seq<Name>, i: nat)
    requires Stages(ix, found) && i <= |found| && ClosedTo(ix, found, i)
    requires forall w :: w in found ==> Reaches(ix, w)
    ensures var r := Explore(ix, found, i);
      ClosedTo(ix, r, |r|) && forall w :: w in r ==> Reaches(ix, w)
    decreases |ix.stages| - i
  {
    NoMoreThan(found, ix.stages.Keys);
    if i < |found| {
      var more := Visit(ix, found, ChainRows(ix, found[i]));
      Visited(ix, found, ChainRows(ix, found[i]));
      VisitReaches(ix, found, i);
      hide Visit, LeadsTo;
      forall k, w | 0 <= k < i + 1 && LeadsTo(ix, ChainRows(ix, more[k]), w) ensures w in more {
        assert more[k] == found[k];
      }
      Explored(ix, more, i + 1);
    }
  }

  /** The search handles each stage once and finds exactly the reachable stages. */
  lemma FoundIsReachable(ix: Index)
    ensures NoDuplicates(Found(ix))
    ensures forall w :: w in Found(ix) <==> Reaches(ix, w)
  {
    var first := Visit(ix, [], SelRows(ix));
    Visited(ix, [], SelRows(ix));
    forall w | w in first ensures Reaches(ix, w) {
      assert ReachesIn(ix, w, 0);
    }
    Explored(ix, first, 0);
    forall w | Reaches(ix, w) ensures w in Found(ix) {
      var n: nat :| ReachesIn(ix, w, n);
      ReachedIsFound(ix, w, n);
    }
  }

  lemma {:induction false} ReachedIsFound(ix: Index, w: Name, n: nat)
    requires ClosedTo(ix, Found(ix), |Found(ix)|) && ReachesIn(ix, w, n)
    ensures w in Found(ix)
    decreases n
  {
    if n == 0 {
      Visited(ix, [], SelRows(ix));
      assert Visit(ix, [], SelRows(ix)) <= Found(ix);
    } else {
      var v :| ReachesIn(ix, v, n - 1) && LeadsTo(ix, ChainRows(ix, v), w);
      ReachedIsFound(ix, v, n - 1);
      var k :| 0 <= k < |Found(ix)| && Found(ix)[k] == v;
    }
  }

  // ---- isomorphic bundles, in the bundles' own fields

  /** The two rows lead to corresponding stages, both to an end, or both nowhere. */
  ghost predicate SameTarget(a: Index, b: Index, h: map<Name, Name>, x: Option<Name>, y: Option<Name>) {
    && (x.None? <==> y.None?)
    && (x.Some? ==>
          if x.value in a.stages && x.value !in a.terminals
          then y.value in b.stages && y.value !in b.terminals && x.value in h && h[x.value] == y.value
          else y.value !in b.stages || y.value in b.terminals)
  }

  ghost predicate SameRow(a: Index, b: Index, h: map<Name, Name>, r: Row, r': Row) {
    r.when == r'.when && SameTarget(a, b, h, r.next, r'.next)
  }

  ghost predicate Forth(a: Index, b: Index, h: map<Name, Name>, r: Row, rb: seq<Row>) {
    exists j :: 0 <= j < |rb| && SameRow(a, b, h, r, rb[j])
  }

  ghost predicate Backed(a: Index, b: Index, h: map<Name, Name>, ra: seq<Row>, r': Row) {
    exists i :: 0 <= i < |ra| && SameRow(a, b, h, ra[i], r')
  }

  /** Each row of either table has its counterpart in the other. */
  ghost predicate SameRows(a: Index, b: Index, h: map<Name, Name>, ra: seq<Row>, rb: seq<Row>) {
    && (forall i {:trigger Forth(a, b, h, ra[i], rb)} :: 0 <= i < |ra| ==> Forth(a, b, h, ra[i], rb))
    && (forall j {:trigger Backed(a, b, h, ra, rb[j])} :: 0 <= j < |rb| ==> Backed(a, b, h, ra, rb[j]))
  }

  /** The answers a person may give: what the task kind of that name says, or none if there is none. */
  ghost predicate SameKind(a: Index, b: Index, k: Name, l: Name) {
    && (if k in a.kinds then multiset(a.kinds[k].accepts) else multiset{})
       == (if l in b.kinds then multiset(b.kinds[l].accepts) else multiset{})
    && (if k in a.kinds then multiset(a.kinds[k].reasonRequired) else multiset{})
       == (if l in b.kinds then multiset(b.kinds[l].reasonRequired) else multiset{})
  }

  /** The two steps ask the same of the same audience within the same time, and both or neither bars someone. */
  ghost predicate SameStep(a: Index, b: Index, s: Step, t: Step) {
    && s.kind == t.kind && s.audience == t.audience && s.deadline == t.deadline
    && ((s.excludes.Some? && |s.excludes.value| > 0) <==> (t.excludes.Some? && |t.excludes.value| > 0))
    && (if s.kind == "human_await" then SameKind(a, b, s.taskKind, t.taskKind)
        else multiset(s.accepts) == multiset(t.accepts) && multiset(s.reasonRequired) == multiset(t.reasonRequired))
    && (s.kind == "signal_await" ==> multiset(s.accepts) == multiset(t.accepts))
  }

  ghost predicate SameSteps(a: Index, b: Index, s: seq<Step>, t: seq<Step>) {
    |s| == |t| && forall i :: 0 <= i < |s| ==> SameStep(a, b, s[i], t[i])
  }

  ghost predicate SameStages(a: Index, b: Index, h: map<Name, Name>, v: Name, w: Name) {
    && v in a.stages && w in b.stages
    && SameSteps(a, b, a.stages[v], b.stages[w])
    && WordsBehind(a, v) == WordsBehind(b, w)
    && SameRows(a, b, h, RowsBehind(a, v), RowsBehind(b, w))
  }

  ghost predicate SameTrigger(a: Index, b: Index) {
    && a.trigger.key == b.trigger.key
    && multiset(a.trigger.episode) == multiset(b.trigger.episode)
    && multiset(a.trigger.requires_) == multiset(b.trigger.requires_)
    && FirstWords(a) == FirstWords(b)
  }

  /** `h` renames the reachable stages of `a` one to one and carries `a` to `b`. */
  ghost predicate Carries(a: Index, b: Index, h: map<Name, Name>) {
    && Injective(h)
    && (forall w :: w in h <==> Reaches(a, w))
    && SameTrigger(a, b)
    && SameRows(a, b, h, FirstRows(a), FirstRows(b))
    && (forall w :: w in h ==> SameStages(a, b, h, w, h[w]))
  }

  /** No table a run can come to spells a `when` twice. */
  ghost predicate WellSpelt(ix: Index) {
    && DistinctWhens(FirstRows(ix))
    && forall w :: Reaches(ix, w) ==> DistinctWhens(RowsBehind(ix, w))
  }

  /** Two steps contribute the same to the form exactly when they are the same step. */
  lemma StepsAlike(a: Index, b: Index, s: seq<Step>, t: seq<Step>)
    ensures FormsOfSteps(a, s) == FormsOfSteps(b, t) <==> SameSteps(a, b, s, t)
  {
    hide FormOfStep, SameStep;
    var fs, ft := FormsOfSteps(a, s), FormsOfSteps(b, t);
    forall i | 0 <= i < |s| && i < |t| ensures fs[i] == ft[i] <==> SameStep(a, b, s[i], t[i]) {
      StepAlike(a, b, s[i], t[i]);
    }
    assert |fs| == |s| && |ft| == |t|;
    if fs == ft {
      forall i | 0 <= i < |s| ensures SameStep(a, b, s[i], t[i]) {
        assert fs[i] == ft[i];
      }
    }
  }

  lemma StepAlike(a: Index, b: Index, s: Step, t: Step)
    ensures FormOfStep(a, s) == FormOfStep(b, t) <==> SameStep(a, b, s, t)
  {
    var f, g := FormOfStep(a, s), FormOfStep(b, t);
    hide FormOfStep, SameKind;
    StepIsRead(a, s);
    StepIsRead(b, t);
    if s.kind == t.kind {
      AnswersAlike(a, b, s, t);
      assert f == g <==>
        && f.audience == g.audience && f.accepts == g.accepts && f.reasonRequired == g.reasonRequired
        && f.deadline == g.deadline && f.barred == g.barred && f.signalAccepts == g.signalAccepts;
    }
  }

  lemma AnswersAlike(a: Index, b: Index, s: Step, t: Step)
    requires s.kind == t.kind
    ensures var f, g := FormOfStep(a, s), FormOfStep(b, t);
      (f.accepts == g.accepts && f.reasonRequired == g.reasonRequired) <==>
      if s.kind == "human_await" then SameKind(a, b, s.taskKind, t.taskKind)
      else multiset(s.accepts) == multiset(t.accepts) && multiset(s.reasonRequired) == multiset(t.reasonRequired)
  {
    hide FormOfStep;
    StepIsRead(a, s);
    StepIsRead(b, t);
  }

  /** What the form keeps of a step, in the step's own fields. */
  lemma StepIsRead(ix: Index, s: Step)
    ensures var f := FormOfStep(ix, s);
      && f.kind == s.kind && f.audience == s.audience && f.deadline == s.deadline
      && (f.barred <==> s.excludes.Some? && |s.excludes.value| > 0)
      && f.signalAccepts == (if s.kind == "signal_await" then multiset(s.accepts) else multiset{})
    ensures var f := FormOfStep(ix, s);
      if s.kind == "human_await" then
        && f.accepts == (if s.taskKind in ix.kinds then multiset(ix.kinds[s.taskKind].accepts) else multiset{})
        && f.reasonRequired
           == (if s.taskKind in ix.kinds then multiset(ix.kinds[s.taskKind].reasonRequired) else multiset{})
      else f.accepts == multiset(s.accepts) && f.reasonRequired == multiset(s.reasonRequired)
  {
    assert Bars(s) <==> s.excludes.Some? && |s.excludes.value| > 0;
  }

  // ---- an isomorphism makes the two searches run in step

  ghost predicate Aligned(a: Index, b: Index, h: map<Name, Name>, s: seq<Slot>, t: seq<Slot>) {
    |s| == |t| && forall i :: 0 <= i < |s| ==> SameRow(a, b, h, s[i].row, t[i].row)
  }

  lemma SortedAlign(a: Index, b: Index, h: map<Name, Name>, ra: seq<Row>, rb: seq<Row>)
    requires DistinctWhens(ra) && DistinctWhens(rb) && SameRows(a, b, h, ra, rb)
    ensures Aligned(a, b, h, Sort(Slots(ra)), Sort(Slots(rb)))
  {
    var s, t := Sort(Slots(ra)), Sort(Slots(rb));
    SlotsDistinct(ra);
    SlotsDistinct(rb);
    SortStrict(Slots(ra));
    SortStrict(Slots(rb));
    SortedIsTable(ra);
    SortedIsTable(rb);
    hide Sort, DistinctWhens, SameRows, SameRow, StrictlyOrdered, DistinctSlots, Whens;
    SameWhens(a, b, h, ra, rb, s, t);
    SameWhensAlign(s, t);
    forall i | 0 <= i < |s| ensures SameRow(a, b, h, s[i].row, t[i].row) {
      assert s[i] in s && t[i] in t;
      RowByWhen(a, b, h, ra, rb, s[i].pos, t[i].pos);
    }
  }

  lemma SameWhens(a: Index, b: Index, h: map<Name, Name>, ra: seq<Row>, rb: seq<Row>, s: seq<Slot>, t: seq<Slot>)
    requires SameRows(a, b, h, ra, rb)
    requires forall x :: x in s <==> x.pos < |ra| && x.row == ra[x.pos]
    requires forall x :: x in t <==> x.pos < |rb| && x.row == rb[x.pos]
    ensures Whens(s) == Whens(t)
  {
    hide SameTarget;
    forall w | w in Whens(s) ensures w in Whens(t) {
      var x :| x in s && x.row.when == w;
      assert Forth(a, b, h, ra[x.pos], rb);
      var j :| 0 <= j < |rb| && SameRow(a, b, h, ra[x.pos], rb[j]);
      assert Slot(j, rb[j]) in t;
    }
    forall w | w in Whens(t) ensures w in Whens(s) {
      var y :| y in t && y.row.when == w;
      assert Backed(a, b, h, ra, rb[y.pos]);
      var i :| 0 <= i < |ra| && SameRow(a, b, h, ra[i], rb[y.pos]);
      assert Slot(i, ra[i]) in s;
    }
  }

  lemma RowByWhen(a: Index, b: Index, h: map<Name, Name>, ra: seq<Row>, rb: seq<Row>, i: nat, j: nat)
    requires DistinctWhens(rb) && SameRows(a, b, h, ra, rb)
    requires i < |ra| && j < |rb| && ra[i].when == rb[j].when
    ensures SameRow(a, b, h, ra[i], rb[j])
  {
    hide SameTarget;
    assert Forth(a, b, h, ra[i], rb);
    var k :| 0 <= k < |rb| && SameRow(a, b, h, ra[i], rb[k]);
    assert k == j;
  }

  lemma SortedIsTable(rows: seq<Row>)
    ensures |Sort(Slots(rows))| == |rows|
    ensures forall x :: x in Sort(Slots(rows)) <==> x.pos < |rows| && x.row == rows[x.pos]
  {
    SortSorts(Slots(rows));
    forall x ensures x in Sort(Slots(rows)) <==> x.pos < |rows| && x.row == rows[x.pos] {
      SortMembers(Slots(rows), x);
      if x.pos < |rows| && x.row == rows[x.pos] { assert Slots(rows)[x.pos] == x; }
    }
  }

  /** The names `b` has given are the images of those `a` has given, in the same order. */
  ghost predicate Images(h: map<Name, Name>, fa: seq<Name>, fb: seq<Name>) {
    && |fa| == |fb| && NoDuplicates(fa) && NoDuplicates(fb)
    && forall i :: 0 <= i < |fa| ==> fa[i] in h && h[fa[i]] == fb[i]
  }

  lemma ImageIn(h: map<Name, Name>, fa: seq<Name>, fb: seq<Name>, v: Name)
    requires Injective(h) && Images(h, fa, fb) && v in h
    ensures v in fa <==> h[v] in fb
    ensures v in fa ==> IndexOf(fa, v) == IndexOf(fb, h[v])
  {
    if v in fa {
      assert fb[IndexOf(fa, v)] == h[v];
    }
    if h[v] in fb {
      assert fa[IndexOf(fb, h[v])] == v;
    }
  }

  lemma {:induction false} VisitsAlign(a: Index, b: Index, h: map<Name, Name>, fa: seq<Name>, fb: seq<Name>,
                                       s: seq<Slot>, t: seq<Slot>)
    requires Injective(h) && Stages(a, fa) && Stages(b, fb) && Images(h, fa, fb) && Aligned(a, b, h, s, t)
    ensures Images(h, VisitSlots(a, fa, s), VisitSlots(b, fb, t))
  {
    if s != [] {
      var n := |s| - 1;
      assert Aligned(a, b, h, s[..n], t[..n]);
      VisitsAlign(a, b, h, fa, fb, s[..n], t[..n]);
      var ga, gb := VisitSlots(a, fa, s[..n]), VisitSlots(b, fb, t[..n]);
      assert SameRow(a, b, h, s[n].row, t[n].row);
      if IsStage(a, s[n].row.next) {
        ImageIn(h, ga, gb, s[n].row.next.value);
      }
    }
  }

  /** The two tables, sorted, lead to corresponding places row by row. */
  ghost predicate SortedAlike(a: Index, b: Index, h: map<Name, Name>, ra: seq<Row>, rb: seq<Row>) {
    Aligned(a, b, h, Sort(Slots(ra)), Sort(Slots(rb)))
  }

  ghost predicate StagesAlike(a: Index, b: Index, h: map<Name, Name>, v: Name, w: Name) {
    && v in a.stages && w in b.stages
    && FormsOfSteps(a, a.stages[v]) == FormsOfSteps(b, b.stages[w])
    && MatchesOf(a, v) == MatchesOf(b, w)
    && SortedAlike(a, b, h, ChainRows(a, v), ChainRows(b, w))
  }

  /** `h` carries `a` to `b` with every pair of tables read in the same order. */
  ghost predicate CarriesInOrder(a: Index, b: Index, h: map<Name, Name>) {
    && Injective(h)
    && SameTrigger(a, b)
    && SortedAlike(a, b, h, SelRows(a), SelRows(b))
    && (forall w :: w in h ==> StagesAlike(a, b, h, w, h[w]))
  }

  lemma CarriesIsInOrder(a: Index, b: Index, h: map<Name, Name>)
    requires Carries(a, b, h) && WellSpelt(a) && WellSpelt(b)
    ensures CarriesInOrder(a, b, h)
  {
    hide Sort, SameRows, FormsOfSteps, MatchesOf, Aligned, DistinctWhens, ReachesIn, LeadsTo, IsStage;
    SortedAlign(a, b, h, SelRows(a), SelRows(b));
    forall w | w in h ensures StagesAlike(a, b, h, w, h[w]) {
      assert SameStages(a, b, h, w, h[w]);
      StepsAlike(a, b, a.stages[w], b.stages[h[w]]);
      CarriedReaches(a, b, h, w);
      SortedAlign(a, b, h, ChainRows(a, w), ChainRows(b, h[w]));
    }
  }

  lemma CarriedReaches(a: Index, b: Index, h: map<Name, Name>, w: Name)
    requires Carries(a, b, h) && Reaches(a, w)
    ensures Reaches(b, h[w])
  {
    hide SameRows, SameStages, LeadsTo, SameTrigger;
    var n: nat :| ReachesIn(a, w, n);
    CarriedReachesIn(a, b, h, w, n);
  }

  lemma {:induction false} CarriedReachesIn(a: Index, b: Index, h: map<Name, Name>, w: Name, n: nat)
    requires Carries(a, b, h) && ReachesIn(a, w, n)
    ensures w in h && ReachesIn(b, h[w], n)
    decreases n
  {
    hide SameRows, SameTrigger, LeadsTo, FormsOfSteps, MatchesOf;
    assert Reaches(a, w);
    if n == 0 {
      CarriedLeads(a, b, h, SelRows(a), SelRows(b), w);
    } else {
      var v :| ReachesIn(a, v, n - 1) && LeadsTo(a, ChainRows(a, v), w);
      CarriedReachesIn(a, b, h, v, n - 1);
      assert SameStages(a, b, h, v, h[v]);
      CarriedLeads(a, b, h, ChainRows(a, v), ChainRows(b, h[v]), w);
    }
  }

  lemma CarriedLeads(a: Index, b: Index, h: map<Name, Name>, ra: seq<Row>, rb: seq<Row>, w: Name)
    requires SameRows(a, b, h, ra, rb) && LeadsTo(a, ra, w) && w in h
    ensures LeadsTo(b, rb, h[w])
  {
    var i :| 0 <= i < |ra| && ra[i].next == Some(w);
    assert Forth(a, b, h, ra[i], rb);
    var j :| 0 <= j < |rb| && SameRow(a, b, h, ra[i], rb[j]);
    assert rb[j].next == Some(h[w]);
  }

  lemma {:induction false} SearchesAlign(a: Index, b: Index, h: map<Name, Name>, fa: seq<Name>, fb: seq<Name>, i: nat)
    requires CarriesInOrder(a, b, h)
    requires Stages(a, fa) && Stages(b, fb) && Images(h, fa, fb) && i <= |fa|
    ensures Images(h, Explore(a, fa, i), Explore(b, fb, i))
    decreases |a.stages| - i
  {
    hide Sort, Aligned, SameTrigger, FormsOfSteps, MatchesOf, VisitSlots;
    NoMoreThan(fa, a.stages.Keys);
    NoMoreThan(fb, b.stages.Keys);
    if i < |fa| {
      var ra, rb := ChainRows(a, fa[i]), ChainRows(b, fb[i]);
      assert StagesAlike(a, b, h, fa[i], h[fa[i]]);
      VisitsAlign(a, b, h, fa, fb, Sort(Slots(ra)), Sort(Slots(rb)));
      SearchesAlign(a, b, h, Visit(a, fa, ra), Visit(b, fb, rb), i + 1);
    }
  }

  lemma FoundAlign(a: Index, b: Index, h: map<Name, Name>)
    requires CarriesInOrder(a, b, h)
    ensures Images(h, Found(a), Found(b))
  {
    hide Sort, Aligned, SameTrigger, FormsOfSteps, MatchesOf, VisitSlots, Explore;
    VisitsAlign(a, b, h, [], [], Sort(Slots(SelRows(a))), Sort(Slots(SelRows(b))));
    SearchesAlign(a, b, h, Visit(a, [], SelRows(a)), Visit(b, [], SelRows(b)), 0);
  }

  lemma {:induction false} FormsEqual(a: Index, b: Index, h: map<Name, Name>, fa: seq<Name>, fb: seq<Name>,
                                      s: seq<Slot>, t: seq<Slot>)
    requires Injective(h) && Images(h, fa, fb) && Aligned(a, b, h, s, t)
    ensures SlotForms(a, fa, s) == SlotForms(b, fb, t)
  {
    if s != [] {
      var n := |s| - 1;
      assert Aligned(a, b, h, s[..n], t[..n]);
      FormsEqual(a, b, h, fa, fb, s[..n], t[..n]);
      assert SameRow(a, b, h, s[n].row, t[n].row);
      if IsStage(a, s[n].row.next) {
        ImageIn(h, fa, fb, s[n].row.next.value);
      }
    }
  }

  lemma AlikeFormsEqual(a: Index, b: Index, h: map<Name, Name>)
    requires CarriesInOrder(a, b, h)
    ensures CanonicalForm(a) == CanonicalForm(b)
  {
    hide Sort, SlotForms, FormsOfSteps, MatchesOf, Aligned, Found;
    FoundAlign(a, b, h);
    var fa, fb := Found(a), Found(b);
    FormsEqual(a, b, h, fa, fb, Sort(Slots(SelRows(a))), Sort(Slots(SelRows(b))));
    forall i | 0 <= i < |fa| ensures FormOfStage(a, fa, fa[i]) == FormOfStage(b, fb, fb[i]) {
      assert StagesAlike(a, b, h, fa[i], h[fa[i]]);
      FormsEqual(a, b, h, fa, fb, Sort(Slots(ChainRows(a, fa[i]))), Sort(Slots(ChainRows(b, fb[i]))));
    }
    assert CanonicalForm(a).stages == CanonicalForm(b).stages;
  }

  lemma IsomorphicFormsEqual(a: Index, b: Index, h: map<Name, Name>)
    requires Carries(a, b, h) && WellSpelt(a) && WellSpelt(b)
    ensures CanonicalForm(a) == CanonicalForm(b)
  {
    CarriesIsInOrder(a, b, h);
    AlikeFormsEqual(a, b, h);
  }

  // ---- equal forms give an isomorphism

  lemma {:induction false} InForms(ix: Index, found: seq<Name>, s: seq<Slot>, f: RowForm)
    ensures f in SlotForms(ix, found, s) <==> exists i :: 0 <= i < |s| && SlotForm(ix, found, s[i]) == f
  {
    if s != [] {
      var n := |s| - 1;
      InForms(ix, found, s[..n], f);
      if i :| 0 <= i < n && SlotForm(ix, found, s[..n][i]) == f {
        assert SlotForm(ix, found, s[i]) == f;
      }
      if i :| 0 <= i < |s| && SlotForm(ix, found, s[i]) == f {
        if i < n { assert SlotForm(ix, found, s[..n][i]) == f; }
      }
    }
  }

  /** The stages found pair by position. */
  ghost function ByPosition(fa: seq<Name>, fb: seq<Name>): (h: map<Name, Name>)
    requires |fa| == |fb| && NoDuplicates(fa) && NoDuplicates(fb)
    ensures Injective(h) && Images(h, fa, fb)
    ensures forall w :: w in h <==> w in fa
  {
    map w | w in fa :: fb[IndexOf(fa, w)]
  }

  lemma TargetsAgree(a: Index, b: Index, h: map<Name, Name>, fa: seq<Name>, fb: seq<Name>,
                 x: Option<Name>, y: Option<Name>)
    requires Injective(h) && Images(h, fa, fb)
    requires IsStage(a, x) ==> x.value in fa
    requires IsStage(b, y) ==> y.value in fb
    requires TargetOf(a, fa, x) == TargetOf(b, fb, y)
    ensures SameTarget(a, b, h, x, y)
  {
    if IsStage(a, x) {
      assert fb[IndexOf(fa, x.value)] == y.value;
    }
  }

  /** The form of a row of the table is among the table's forms, and each of those is a row's. */
  lemma FormOfRow(ix: Index, found: seq<Name>, rows: seq<Row>, i: nat)
    requires i < |rows|
    ensures (rows[i].when, TargetOf(ix, found, rows[i].next)) in RowForms(ix, found, rows)
  {
    hide Sort, TargetOf;
    var x := Slot(i, rows[i]);
    SortedIsTable(rows);
    assert x in Sort(Slots(rows));
    InForms(ix, found, Sort(Slots(rows)), SlotForm(ix, found, x));
  }

  lemma RowOfForm(ix: Index, found: seq<Name>, rows: seq<Row>, f: RowForm) returns (i: nat)
    requires f in RowForms(ix, found, rows)
    ensures i < |rows| && f == (rows[i].when, TargetOf(ix, found, rows[i].next))
  {
    hide Sort, TargetOf;
    var s := Sort(Slots(rows));
    SortedIsTable(rows);
    InForms(ix, found, s, f);
    var k :| 0 <= k < |s| && SlotForm(ix, found, s[k]) == f;
    assert s[k] in s;
    i := s[k].pos;
  }

  /** Every stage the table leads to has been found. */
  ghost predicate AllFound(ix: Index, found: seq<Name>, rows: seq<Row>) {
    forall i :: 0 <= i < |rows| && IsStage(ix, rows[i].next) ==> rows[i].next.value in found
  }

  lemma FormsGiveRows(a: Index, b: Index, h: map<Name, Name>, fa: seq<Name>, fb: seq<Name>, ra: seq<Row>, rb: seq<Row>)
    requires Injective(h) && Images(h, fa, fb)
    requires AllFound(a, fa, ra) && AllFound(b, fb, rb)
    requires RowForms(a, fa, ra) == RowForms(b, fb, rb)
    ensures SameRows(a, b, h, ra, rb)
  {
    hide RowForms, TargetOf, SameTarget;
    forall i: nat | i < |ra| ensures Forth(a, b, h, ra[i], rb) {
      FormOfRow(a, fa, ra, i);
      var j := RowOfForm(b, fb, rb, (ra[i].when, TargetOf(a, fa, ra[i].next)));
      TargetsAgree(a, b, h, fa, fb, ra[i].next, rb[j].next);
      assert SameRow(a, b, h, ra[i], rb[j]);
    }
    forall j: nat | j < |rb| ensures Backed(a, b, h, ra, rb[j]) {
      FormOfRow(b, fb, rb, j);
      var i := RowOfForm(a, fa, ra, (rb[j].when, TargetOf(b, fb, rb[j].next)));
      TargetsAgree(a, b, h, fa, fb, ra[i].next, rb[j].next);
      assert SameRow(a, b, h, ra[i], rb[j]);
    }
  }

  /** The rows of the selection, and of the table behind a found stage, lead to found stages. */
  lemma LeadsToFound(ix: Index)
    ensures AllFound(ix, Found(ix), SelRows(ix))
    ensures forall w :: w in Found(ix) ==> AllFound(ix, Found(ix), ChainRows(ix, w))
  {
    FoundIsReachable(ix);
    hide Found;
    var rows := SelRows(ix);
    forall i | 0 <= i < |rows| && IsStage(ix, rows[i].next) ensures rows[i].next.value in Found(ix) {
      assert LeadsTo(ix, rows, rows[i].next.value);
      assert ReachesIn(ix, rows[i].next.value, 0);
    }
    forall w | w in Found(ix) ensures AllFound(ix, Found(ix), ChainRows(ix, w)) {
      var rows := ChainRows(ix, w);
      forall i | 0 <= i < |rows| && IsStage(ix, rows[i].next) ensures rows[i].next.value in Found(ix) {
        assert LeadsTo(ix, rows, rows[i].next.value);
        ReachesNext(ix, w, rows[i].next.value);
      }
    }
  }

  lemma FormGivesStage(a: Index, b: Index, h: map<Name, Name>, fa: seq<Name>, fb: seq<Name>, v: Name, w: Name)
    requires Injective(h) && Images(h, fa, fb) && v in a.stages && w in b.stages
    requires AllFound(a, fa, ChainRows(a, v)) && AllFound(b, fb, ChainRows(b, w))
    requires FormOfStage(a, fa, v) == FormOfStage(b, fb, w)
    ensures SameStages(a, b, h, v, w)
  {
    hide RowForms, AllFound, SameRows, FormsOfSteps, SameSteps, Images;
    StepsAlike(a, b, a.stages[v], b.stages[w]);
    FormsGiveRows(a, b, h, fa, fb, ChainRows(a, v), ChainRows(b, w));
  }

  lemma FormGivesTop(a: Index, b: Index)
    requires CanonicalForm(a) == CanonicalForm(b)
    ensures SameTrigger(a, b) && |Found(a)| == |Found(b)|
    ensures RowForms(a, Found(a), SelRows(a)) == RowForms(b, Found(b), SelRows(b))
    ensures forall i :: 0 <= i < |Found(a)| ==>
      FormOfStage(a, Found(a), Found(a)[i]) == FormOfStage(b, Found(b), Found(b)[i])
  {
    hide RowForms, FormOfStage;
    var fa, fb := Found(a), Found(b);
    assert |fa| == |CanonicalForm(a).stages| == |CanonicalForm(b).stages| == |fb|;
    forall i | 0 <= i < |fa| ensures FormOfStage(a, fa, fa[i]) == FormOfStage(b, fb, fb[i]) {
      assert CanonicalForm(a).stages[i] == CanonicalForm(b).stages[i];
    }
  }

  lemma EqualFormsIsomorphic(a: Index, b: Index)
    requires CanonicalForm(a) == CanonicalForm(b)
    ensures |Found(a)| == |Found(b)|
    ensures Carries(a, b, ByPosition(Found(a), Found(b)))
  {
    hide CanonicalForm, RowForms, FormOfStage, Found, AllFound, SameRows, Reaches, SameTrigger, SameStages;
    FormGivesTop(a, b);
    var fa, fb := Found(a), Found(b);
    var h := ByPosition(fa, fb);
    LeadsToFound(a);
    LeadsToFound(b);
    FoundIsReachable(a);
    FormsGiveRows(a, b, h, fa, fb, SelRows(a), SelRows(b));
    forall w | w in h ensures SameStages(a, b, h, w, h[w]) {
      var i := IndexOf(fa, w);
      assert fb[i] == h[w] && fb[i] in fb;
      FormGivesStage(a, b, h, fa, fb, w, h[w]);
    }
  }

  // ---- the theorems

  /**
   On bundles whose tables spell each `when` once, two canonical forms are equal exactly when a
   one-to-one renaming of the reachable stages carries one bundle to the other.
   */
  lemma CanonicalIsExact(a: Index, b: Index)
    requires WellSpelt(a) && WellSpelt(b)
    ensures CanonicalForm(a) == CanonicalForm(b) <==> exists h :: Carries(a, b, h)
  {
    if CanonicalForm(a) == CanonicalForm(b) {
      EqualFormsIsomorphic(a, b);
    }
    if h :| Carries(a, b, h) {
      IsomorphicFormsEqual(a, b, h);
    }
  }

  // ---- names do not count

  function RenameTable(f: Name -> Name, t: Table): Table {
    Table(t.matches, RenameRows(f, t.rows))
  }

  function RenameAll(id: Name -> Name, names: seq<Name>): (r: seq<Name>)
    ensures |r| == |names|
  {
    seq(|names|, i requires 0 <= i < |names| => id(names[i]))
  }

  function RenameStep(kind: Name -> Name, id: Name -> Name, s: Step): Step {
    s.(id := id(s.id),
       taskKind := kind(s.taskKind),
       excludes := if s.excludes.Some? then Some(RenameAll(id, s.excludes.value)) else None)
  }

  function RenameSteps(kind: Name -> Name, id: Name -> Name, steps: seq<Step>): seq<Step> {
    seq(|steps|, i requires 0 <= i < |steps| => RenameStep(kind, id, steps[i]))
  }

  ghost function Rekey<V>(f: Name -> Name, m: map<Name, V>): (r: map<Name, V>)
    requires Injection(f)
    ensures forall w :: f(w) in r <==> w in m
    ensures forall w :: w in m ==> r[f(w)] == m[w]
    ensures forall x :: x in r ==> exists w :: w in m && f(w) == x
  {
    map w | w in m :: f(w) := m[w]
  }

  function RenameTables(f: Name -> Name, m: map<Name, Table>): map<Name, Table> {
    map w | w in m :: RenameTable(f, m[w])
  }

  function RenameStages(kind: Name -> Name, id: Name -> Name, m: map<Name, seq<Step>>): map<Name, seq<Step>> {
    map w | w in m :: RenameSteps(kind, id, m[w])
  }

  ghost function RenameSet(f: Name -> Name, s: set<Name>): (r: set<Name>)
    requires Injection(f)
    ensures forall w :: f(w) in r <==> w in s
  {
    set t | t in s :: f(t)
  }

  /** The bundle under other names: of stages and terminals by `f`, of task kinds by `kind`, of steps by `id`. */
  ghost function Renamed(ix: Index, f: Name -> Name, kind: Name -> Name, id: Name -> Name): Index
    requires Injection(f) && Injection(kind)
  {
    Index(ix.trigger,
          if ix.sel.Some? then Some(RenameTable(f, ix.sel.value)) else None,
          Rekey(f, RenameTables(f, ix.chain)),
          Rekey(f, RenameStages(kind, id, ix.stages)),
          Rekey(kind, ix.kinds),
          RenameSet(f, ix.terminals))
  }

  lemma RenamedRows(ix: Index, f: Name -> Name, kind: Name -> Name, id: Name -> Name, w: Name)
    requires Injection(f) && Injection(kind)
    ensures var r := Renamed(ix, f, kind, id);
      && SelRows(r) == RenameRows(f, SelRows(ix))
      && ChainRows(r, f(w)) == RenameRows(f, ChainRows(ix, w))
      && MatchesOf(r, f(w)) == MatchesOf(ix, w)
      && SelMatches(r) == SelMatches(ix)
      && (IsStage(r, Some(f(w))) <==> IsStage(ix, Some(w)))
      && (w in ix.stages ==> r.stages[f(w)] == RenameSteps(kind, id, ix.stages[w]))
  {
    hide RenameRows, RenameSteps, Rekey, RenameSet, Injection;
    assert f(w) in Rekey(f, RenameTables(f, ix.chain)) <==> w in ix.chain;
    assert f(w) in Rekey(f, RenameStages(kind, id, ix.stages)) <==> w in ix.stages;
    assert f(w) in RenameSet(f, ix.terminals) <==> w in ix.terminals;
    assert RenameRows(f, []) == [];
  }

  lemma RenamedSteps(ix: Index, f: Name -> Name, kind: Name -> Name, id: Name -> Name, steps: seq<Step>)
    requires Injection(f) && Injection(kind)
    ensures FormsOfSteps(Renamed(ix, f, kind, id), RenameSteps(kind, id, steps)) == FormsOfSteps(ix, steps)
  {
    hide FormOfStep, RenameStep, Renamed;
    forall i | 0 <= i < |steps|
      ensures FormsOfSteps(Renamed(ix, f, kind, id), RenameSteps(kind, id, steps))[i] == FormsOfSteps(ix, steps)[i]
    {
      RenamedStep(ix, f, kind, id, steps[i]);
    }
  }

  lemma RenamedStep(ix: Index, f: Name -> Name, kind: Name -> Name, id: Name -> Name, s: Step)
    requires Injection(f) && Injection(kind)
    ensures FormOfStep(Renamed(ix, f, kind, id), RenameStep(kind, id, s)) == FormOfStep(ix, s)
  {
    RenamedHeld(ix, f, kind, id, s);
    hide Renamed, Injection, HeldBy, RenameAll, FormOf;
    var t := RenameStep(kind, id, s);
    assert t.excludes.Some? ==> |t.excludes.value| == |s.excludes.value|;
    assert Bars(t) == Bars(s);
  }

  lemma RenamedHeld(ix: Index, f: Name -> Name, kind: Name -> Name, id: Name -> Name, s: Step)
    requires Injection(f) && Injection(kind)
    ensures HeldBy(Renamed(ix, f, kind, id), RenameStep(kind, id, s)) == HeldBy(ix, s)
  {
    RenamedKinds(ix, f, kind, id, s.taskKind);
    hide Renamed, Injection;
  }

  lemma RenamedKinds(ix: Index, f: Name -> Name, kind: Name -> Name, id: Name -> Name, k: Name)
    requires Injection(f) && Injection(kind)
    ensures var r := Renamed(ix, f, kind, id);
      && (kind(k) in r.kinds <==> k in ix.kinds)
      && (k in ix.kinds ==> r.kinds[kind(k)] == ix.kinds[k])
  {
    hide Injection, RenameTables, RenameStages, RenameSet, Rekey;
    assert Renamed(ix, f, kind, id).kinds == Rekey(kind, ix.kinds);
  }

  lemma {:induction false} InsertAligns(a: Index, b: Index, h: map<Name, Name>,
                   x: Slot, y: Slot, s: seq<Slot>, t: seq<Slot>)
    requires Aligned(a, b, h, s, t) && SameRow(a, b, h, x.row, y.row)
    ensures Aligned(a, b, h, Insert(x, s), Insert(y, t))
  {
    hide SameTarget, WhenLess;
    if s != [] {
      assert SameRow(a, b, h, s[0].row, t[0].row);
      if WhenLess(s[0].row.when, x.row.when) {
        assert Aligned(a, b, h, s[1..], t[1..]);
        InsertAligns(a, b, h, x, y, s[1..], t[1..]);
      }
    }
  }

  /** Rows that correspond one by one are sorted alike, those of one `when` too. */
  lemma {:induction false} SortAligns(a: Index, b: Index, h: map<Name, Name>, s: seq<Slot>, t: seq<Slot>)
    requires Aligned(a, b, h, s, t)
    ensures Aligned(a, b, h, Sort(s), Sort(t))
  {
    hide SameRow, Insert;
    if s != [] {
      assert Aligned(a, b, h, s[1..], t[1..]);
      SortAligns(a, b, h, s[1..], t[1..]);
      InsertAligns(a, b, h, s[0], t[0], Sort(s[1..]), Sort(t[1..]));
    }
  }

  lemma RenamedTarget(ix: Index, f: Name -> Name, kind: Name -> Name, id: Name -> Name,
                  h: map<Name, Name>, next: Option<Name>)
    requires Injection(f) && Injection(kind)
    requires forall w :: w in h ==> h[w] == f(w)
    requires IsStage(ix, next) ==> next.value in h
    ensures SameTarget(ix, Renamed(ix, f, kind, id), h, next, RenameNext(f, next))
  {
    hide Renamed, RenameRows, RenameSteps;
    if next.Some? { RenamedRows(ix, f, kind, id, next.value); }
  }

  lemma RenamedAlike(ix: Index, f: Name -> Name, kind: Name -> Name, id: Name -> Name,
                 h: map<Name, Name>, rows: seq<Row>)
    requires Injection(f) && Injection(kind)
    requires forall w :: w in h ==> h[w] == f(w)
    requires AllFoundIn(ix, h, rows)
    ensures SortedAlike(ix, Renamed(ix, f, kind, id), h, rows, RenameRows(f, rows))
  {
    hide Renamed, Sort, Injection, SameTarget;
    var r := Renamed(ix, f, kind, id);
    forall i | 0 <= i < |rows| ensures SameRow(ix, r, h, rows[i], RenameRows(f, rows)[i]) {
      RenamedTarget(ix, f, kind, id, h, rows[i].next);
    }
    hide SameRow, RenameRows, AllFoundIn;
    SortAligns(ix, r, h, Slots(rows), Slots(RenameRows(f, rows)));
  }

  lemma RenamedStage(ix: Index, f: Name -> Name, kind: Name -> Name, id: Name -> Name, h: map<Name, Name>, w: Name)
    requires Injection(f) && Injection(kind) && w in ix.stages
    requires (forall v :: v in h ==> h[v] == f(v)) && AllFoundIn(ix, h, ChainRows(ix, w))
    ensures StagesAlike(ix, Renamed(ix, f, kind, id), h, w, f(w))
  {
    hide FormsOfSteps, MatchesOf, RenameRows, RenameSteps, SortedAlike, IsStage, Rekey;
    RenamedRows(ix, f, kind, id, w);
    RenamedSteps(ix, f, kind, id, ix.stages[w]);
    RenamedAlike(ix, f, kind, id, h, ChainRows(ix, w));
    assert f(w) in Renamed(ix, f, kind, id).stages;
  }

  ghost predicate AllFoundIn(ix: Index, h: map<Name, Name>, rows: seq<Row>) {
    forall i :: 0 <= i < |rows| && IsStage(ix, rows[i].next) ==> rows[i].next.value in h
  }

  /** The form is the same under any one-to-one renaming of stages, ends, task kinds and steps. */
  lemma RenamingChangesNothing(ix: Index, f: Name -> Name, kind: Name -> Name, id: Name -> Name)
    requires Injection(f) && Injection(kind)
    ensures CanonicalForm(Renamed(ix, f, kind, id)) == CanonicalForm(ix)
  {
    hide Found, IsStage, RenameRows, CanonicalForm, SortedAlike, Renamed, StagesAlike, SameTrigger;
    var r := Renamed(ix, f, kind, id);
    LeadsToFound(ix);
    var h := map w | w in Found(ix) :: f(w);
    forall w | w in h ensures StagesAlike(ix, r, h, w, h[w]) {
      RenamedStage(ix, f, kind, id, h, w);
    }
    RenamedRows(ix, f, kind, id, "");
    RenamedAlike(ix, f, kind, id, h, SelRows(ix));
    RenamedTrigger(ix, f, kind, id);
    assert CarriesInOrder(ix, r, h);
    AlikeFormsEqual(ix, r, h);
  }

  lemma RenamedTrigger(ix: Index, f: Name -> Name, kind: Name -> Name, id: Name -> Name)
    requires Injection(f) && Injection(kind)
    ensures SameTrigger(ix, Renamed(ix, f, kind, id))
  {
    hide Rekey, RenameSet, RenameStages, RenameTables;
  }

  // ---- nor does the order of a table's rows

  ghost predicate SameTable(s: Table, t: Table) {
    multiset(s.matches) == multiset(t.matches) && multiset(s.rows) == multiset(t.rows)
  }

  ghost predicate RowsReordered(a: Index, b: Index) {
    && a.trigger == b.trigger && a.stages == b.stages && a.kinds == b.kinds && a.terminals == b.terminals
    && (a.sel.Some? <==> b.sel.Some?) && (a.sel.Some? ==> SameTable(a.sel.value, b.sel.value))
    && a.chain.Keys == b.chain.Keys && forall w :: w in a.chain ==> SameTable(a.chain[w], b.chain[w])
  }

  lemma Reordered(a: Index, b: Index, w: Name)
    requires RowsReordered(a, b)
    ensures multiset(SelRows(a)) == multiset(SelRows(b))
    ensures multiset(ChainRows(a, w)) == multiset(ChainRows(b, w))
    ensures MatchesOf(a, w) == MatchesOf(b, w) && SelMatches(a) == SelMatches(b)
  {
  }

  lemma SameMembers(ra: seq<Row>, rb: seq<Row>)
    requires multiset(ra) == multiset(rb)
    ensures forall r :: r in ra <==> r in rb
  {
    forall r ensures r in ra <==> r in rb {
      assert r in multiset(ra) <==> r in multiset(rb);
    }
  }

  lemma {:induction false} ReorderedReaches(a: Index, b: Index, w: Name, n: nat)
    requires RowsReordered(a, b) && ReachesIn(a, w, n)
    ensures ReachesIn(b, w, n)
    decreases n
  {
    if n == 0 {
      SameMembers(SelRows(a), SelRows(b));
      var i :| 0 <= i < |SelRows(a)| && SelRows(a)[i].next == Some(w);
      assert SelRows(a)[i] in SelRows(b);
    } else {
      var v :| ReachesIn(a, v, n - 1) && LeadsTo(a, RowsBehind(a, v), w);
      ReorderedReaches(a, b, v, n - 1);
      Reordered(a, b, v);
      SameMembers(RowsBehind(a, v), RowsBehind(b, v));
      var i :| 0 <= i < |RowsBehind(a, v)| && RowsBehind(a, v)[i].next == Some(w);
      assert RowsBehind(a, v)[i] in RowsBehind(b, v);
      assert LeadsTo(b, RowsBehind(b, v), w);
    }
  }

  lemma ReorderedSameRows(a: Index, b: Index, h: map<Name, Name>, ra: seq<Row>, rb: seq<Row>)
    requires RowsReordered(a, b) && multiset(ra) == multiset(rb)
    requires forall w :: w in h ==> h[w] == w
    requires forall i :: 0 <= i < |ra| && IsStage(a, ra[i].next) ==> ra[i].next.value in h
    ensures SameRows(a, b, h, ra, rb)
  {
    SameMembers(ra, rb);
    forall i | 0 <= i < |ra| ensures Forth(a, b, h, ra[i], rb) {
      assert ra[i] in rb;
      var j :| 0 <= j < |rb| && rb[j] == ra[i];
      assert SameRow(a, b, h, ra[i], rb[j]);
    }
    forall j | 0 <= j < |rb| ensures Backed(a, b, h, ra, rb[j]) {
      assert rb[j] in ra;
      var i :| 0 <= i < |ra| && rb[j] == ra[i];
      assert SameRow(a, b, h, ra[i], rb[j]);
    }
  }

  lemma ReorderedDistinct(ra: seq<Row>, rb: seq<Row>)
    requires DistinctWhens(ra) && multiset(ra) == multiset(rb)
    ensures DistinctWhens(rb)
  {
    assert NoDuplicates(ra);
    NoDuplicatesByMultiset(ra, rb);
    SameMembers(ra, rb);
    forall i, j | 0 <= i < j < |rb| ensures rb[i].when != rb[j].when {
      assert rb[i] in ra && rb[j] in ra;
    }
  }

  /** The form is the same for any order of the rows of each table. */
  lemma RowOrderChangesNothing(a: Index, b: Index)
    requires RowsReordered(a, b) && WellSpelt(a)
    ensures CanonicalForm(a) == CanonicalForm(b)
  {
    hide *;
    ReorderedWellSpelt(a, b);
    ReorderedCarries(a, b);
    IsomorphicFormsEqual(a, b, map w | w in Found(a) :: w);
  }

  lemma ReorderedCarries(a: Index, b: Index)
    requires RowsReordered(a, b)
    ensures Carries(a, b, map w | w in Found(a) :: w)
  {
    hide Found, Reaches, SameTrigger, SameStages, SameRows, AllFound, RowsReordered;
    FoundIsReachable(a);
    LeadsToFound(a);
    var h := map w | w in Found(a) :: w;
    ReorderedTop(a, b, h);
    forall w | w in h ensures SameStages(a, b, h, w, h[w]) {
      ReorderedStage(a, b, h, w);
    }
  }

  lemma ReorderedTop(a: Index, b: Index, h: map<Name, Name>)
    requires RowsReordered(a, b)
    requires h == map w | w in Found(a) :: w
    requires AllFound(a, Found(a), SelRows(a))
    ensures SameTrigger(a, b) && SameRows(a, b, h, FirstRows(a), FirstRows(b))
  {
    hide Found, SameRows, AllFound;
    Reordered(a, b, "");
    ReorderedLike(a, b, h, SelRows(a), SelRows(b));
  }

  lemma ReorderedStage(a: Index, b: Index, h: map<Name, Name>, w: Name)
    requires RowsReordered(a, b) && w in a.stages
    requires h == map w | w in Found(a) :: w
    requires AllFound(a, Found(a), ChainRows(a, w))
    ensures SameStages(a, b, h, w, w)
  {
    hide Found, SameRows, AllFound, SameSteps;
    Reordered(a, b, w);
    ReorderedLike(a, b, h, ChainRows(a, w), ChainRows(b, w));
    ReorderedSteps(a, b, a.stages[w]);
  }

  lemma ReorderedLike(a: Index, b: Index, h: map<Name, Name>, ra: seq<Row>, rb: seq<Row>)
    requires RowsReordered(a, b) && multiset(ra) == multiset(rb)
    requires h == map w | w in Found(a) :: w
    requires AllFound(a, Found(a), ra)
    ensures SameRows(a, b, h, ra, rb)
  {
    hide Found;
    ReorderedSameRows(a, b, h, ra, rb);
  }

  lemma ReorderedSteps(a: Index, b: Index, steps: seq<Step>)
    requires RowsReordered(a, b)
    ensures SameSteps(a, b, steps, steps)
  {
  }

  lemma ReorderedWellSpelt(a: Index, b: Index)
    requires RowsReordered(a, b) && WellSpelt(a)
    ensures WellSpelt(b)
  {
    hide ReachesIn;
    Reordered(a, b, "");
    ReorderedDistinct(SelRows(a), SelRows(b));
    forall w | Reaches(b, w) ensures DistinctWhens(ChainRows(b, w)) {
      var n: nat :| ReachesIn(b, w, n);
      Reordered(a, b, w);
      ReorderedReaches(b, a, w, n);
      assert Reaches(a, w);
      ReorderedDistinct(ChainRows(a, w), ChainRows(b, w));
    }
  }
}
