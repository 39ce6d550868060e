/**
 `canonical`: a bundle with its names taken away. Stages are renamed by a breadth-first search from
 the selection table; a row keeps its `when` and where it goes, an end is an end.
 */
module Canonical {
  import opened Options
  import opened Basics
  import opened Bundles
  import opened Ordering

  // ---- the form

  datatype Target = NoTarget | End | Stage(k: nat)

  type RowForm = (When, Target)

  /** What one step contributes; lists the source sorts are multisets here. */
  datatype StepForm = StepForm(
    kind: string,
    audience: Option<string>,
    accepts: multiset<string>,
    reasonRequired: multiset<string>,
    deadline: Option<int>,
    barred: bool,
    signalAccepts: multiset<string>)

  datatype StageForm = StageForm(steps: seq<StepForm>, chain: multiset<RowForm>, matches: multiset<string>)

  datatype Form = Form(
    key: Option<string>,
    episode: multiset<string>,
    requires_: multiset<string>,
    matches: multiset<string>,
    rows: multiset<RowForm>,
    stages: seq<StageForm>)

  // ---- the search

  /** The row leads to a stage: a workflow of the bundle that is not a terminal. */
  predicate IsStage(ix: Index, next: Option<Name>) {
    next.Some? && next.value !in ix.terminals && next.value in ix.stages
  }

  /** `target`'s effect on the names given so far: a stage not yet named is named next. */
  function See(ix: Index, found: seq<Name>, next: Option<Name>): seq<Name> {
    if IsStage(ix, next) && next.value !in found then found + [next.value] else found
  }

  ghost predicate Stages(ix: Index, found: seq<Name>) {
    NoDuplicates(found) && forall w :: w in found ==> w in ix.stages
  }

  function VisitSlots(ix: Index, found: seq<Name>, s: seq<Slot>): (r: seq<Name>)
    ensures found <= r
    ensures Stages(ix, found) ==> Stages(ix, r)
  {
    if s == [] then found
    else See(ix, VisitSlots(ix, found, s[..|s| - 1]), s[|s| - 1].row.next)
  }

  /** The names after reading one table's rows in order of their `when`. */
  function Visit(ix: Index, found: seq<Name>, rows: seq<Row>): (r: seq<Name>)
    ensures found <= r
    ensures Stages(ix, found) ==> Stages(ix, r)
  {
    VisitSlots(ix, found, Sort(Slots(rows)))
  }

  lemma {:induction false} NoMoreThan(found: seq<Name>, all: set<Name>)
    requires NoDuplicates(found) && forall w :: w in found ==> w in all
    ensures |found| <= |all|
  {
    if found != [] {
      var n := |found| - 1;
      assert found[n] !in found[..n];
      NoMoreThan(found[..n], all - {found[n]});
    }
  }

  /** The queue is `found[i..]`: stages are taken in the order they were named. */
  function Explore(ix: Index, found: seq<Name>, i: nat): (r: seq<Name>)
    requires Stages(ix, found) && i <= |found|
    ensures Stages(ix, r) && found <= r
    decreases |ix.stages| - i
  {
    NoMoreThan(found, ix.stages.Keys);
    if i == |found| then found
    else Explore(ix, Visit(ix, found, ChainRows(ix, found[i])), i + 1)
  }

  /** The stages in the order the search names them: wf0, wf1, ... */
  function Found(ix: Index): (r: seq<Name>)
    ensures Stages(ix, r)
  {
    Explore(ix, Visit(ix, [], SelRows(ix)), 0)
  }

  // ---- reading the form off the names

  function IndexOf(found: seq<Name>, w: Name): (k: nat)
    requires w in found
    ensures k < |found| && found[k] == w
  {
    var n := |found| - 1;
    if found[n] == w then n else IndexOf(found[..n], w)
  }

  function TargetOf(ix: Index, found: seq<Name>, next: Option<Name>): Target {
    if next.None? then NoTarget
    else if IsStage(ix, next) && next.value in found then Stage(IndexOf(found, next.value))
    else End
  }

  function SlotForm(ix: Index, found: seq<Name>, x: Slot): RowForm {
    (x.row.when, TargetOf(ix, found, x.row.next))
  }

  function SlotForms(ix: Index, found: seq<Name>, s: seq<Slot>): multiset<RowForm> {
    if s == [] then multiset{}
    else SlotForms(ix, found, s[..|s| - 1]) + multiset{SlotForm(ix, found, s[|s| - 1])}
  }

  function RowForms(ix: Index, found: seq<Name>, rows: seq<Row>): multiset<RowForm> {
    SlotForms(ix, found, Sort(Slots(rows)))
  }

  const HUMAN_AWAIT := "human_await"
  const SIGNAL_AWAIT := "signal_await"

  /** Where a step's answers are held: a person's on the task kind it names, any other's on itself. */
  function HeldBy(ix: Index, s: Step): TaskKind {
    if s.kind != HUMAN_AWAIT then TaskKind(s.accepts, s.reasonRequired)
    else if s.taskKind in ix.kinds then ix.kinds[s.taskKind]
    else TaskKind([], [])
  }

  function FormOf(kind: string, audience: Option<string>, held: TaskKind, deadline: Option<int>, barred: bool,
                  accepts: seq<string>): StepForm {
    StepForm(kind, audience, multiset(held.accepts), multiset(held.reasonRequired), deadline, barred,
             if kind == SIGNAL_AWAIT then multiset(accepts) else multiset{})
  }

  function FormOfStep(ix: Index, s: Step): StepForm {
    FormOf(s.kind, s.audience, HeldBy(ix, s), s.deadline, Bars(s), s.accepts)
  }

  function FormsOfSteps(ix: Index, steps: seq<Step>): seq<StepForm> {
    seq(|steps|, i requires 0 <= i < |steps| => FormOfStep(ix, steps[i]))
  }

  function MatchesOf(ix: Index, w: Name): multiset<string> {
    if w in ix.chain then multiset(ix.chain[w].matches) else multiset{}
  }

  function FormOfStage(ix: Index, found: seq<Name>, w: Name): StageForm
    requires w in ix.stages
  {
    StageForm(FormsOfSteps(ix, ix.stages[w]), RowForms(ix, found, ChainRows(ix, w)), MatchesOf(ix, w))
  }

  function SelMatches(ix: Index): multiset<string> {
    if ix.sel.Some? then multiset(ix.sel.value.matches) else multiset{}
  }

  function CanonicalForm(ix: Index): Form {
    var found := Found(ix);
    Form(ix.trigger.key, multiset(ix.trigger.episode), multiset(ix.trigger.requires_),
         SelMatches(ix), RowForms(ix, found, SelRows(ix)),
         seq(|found|, i requires 0 <= i < |found| => FormOfStage(ix, found, found[i])))
  }

  // ---- the search as the source runs it

  ghost predicate NamesAre(names: map<Name, nat>, found: seq<Name>) {
    && (forall w :: w in names <==> w in found)
    && (forall k :: 0 <= k < |found| ==> found[k] in names && names[found[k]] == k)
  }

  lemma {:induction false} NamesCount(names: map<Name, nat>, found: seq<Name>)
    requires NamesAre(names, found) && NoDuplicates(found)
    ensures |names| == |found|
  {
    if found == [] {
      assert names == map[];
    } else {
      var n := |found| - 1;
      assert found[n] !in found[..n];
      var fewer := names - {found[n]};
      assert |fewer| == |names| - 1 by {
        assert fewer.Keys == names.Keys - {found[n]};
        assert |fewer| == |fewer.Keys| && |names| == |names.Keys|;
      }
      NamesCount(fewer, found[..n]);
    }
  }

  /** Every stage these rows lead to has its name. */
  ghost predicate SeenAll(ix: Index, found: seq<Name>, s: seq<Slot>) {
    forall i :: 0 <= i < |s| && IsStage(ix, s[i].row.next) ==> s[i].row.next.value in found
  }

  lemma IndexStays(found: seq<Name>, more: seq<Name>, w: Name)
    requires found <= more && NoDuplicates(more) && w in found
    ensures w in more && IndexOf(found, w) == IndexOf(more, w)
  {
    assert more[IndexOf(found, w)] == w;
  }

  /** A name once given does not change. */
  lemma {:induction false} SeenStays(ix: Index, found: seq<Name>, more: seq<Name>, s: seq<Slot>)
    requires found <= more && NoDuplicates(more) && SeenAll(ix, found, s)
    ensures SeenAll(ix, more, s) && SlotForms(ix, found, s) == SlotForms(ix, more, s)
  {
    if s != [] {
      var n := |s| - 1;
      SeenStays(ix, found, more, s[..n]);
      if IsStage(ix, s[n].row.next) {
        IndexStays(found, more, s[n].row.next.value);
      }
    }
  }

  /** `target`: a row's `then` as the form spells it, naming the stage if it is new. */
  method NameTarget(ix: Index, names0: map<Name, nat>, order0: seq<Name>, next: Option<Name>, ghost found0: seq<Name>)
    returns (t: Target, names: map<Name, nat>, order: seq<Name>, ghost found: seq<Name>)
    requires Stages(ix, found0) && NamesAre(names0, found0)
    ensures found == See(ix, found0, next) && Stages(ix, found)
    ensures NamesAre(names, See(ix, found0, next)) && order == order0 + See(ix, found0, next)[|found0|..]
    ensures t == TargetOf(ix, See(ix, found0, next), next)
  {
    names, order, found := names0, order0, found0;
    if next.None? {
      return NoTarget, names, order, found;
    }
    if next.value in ix.terminals || next.value !in ix.stages {
      return End, names, order, found;
    }
    if next.value !in names {
      NamesCount(names, found);
      names := names[next.value := |names|];
      order := order + [next.value];
      found := found + [next.value];
    }
    t := Stage(names[next.value]);
    assert found[IndexOf(found, next.value)] == next.value;
  }

  /** Reading row `i` takes the search and the forms from the first `i` rows to the first `i + 1`. */
  lemma RowRead(ix: Index, found0: seq<Name>, found: seq<Name>, more: seq<Name>, s: seq<Slot>, i: nat)
    requires i < |s| && found0 <= found && Stages(ix, found)
    requires found == VisitSlots(ix, found0, s[..i]) && SeenAll(ix, found, s[..i])
    requires more == See(ix, found, s[i].row.next)
    ensures found <= more && more == VisitSlots(ix, found0, s[..i + 1]) && SeenAll(ix, more, s[..i + 1])
    ensures SlotForms(ix, more, s[..i + 1])
         == SlotForms(ix, found, s[..i]) + multiset{(s[i].row.when, TargetOf(ix, more, s[i].row.next))}
  {
    assert s[..i + 1][..i] == s[..i];
    SeenStays(ix, found, more, s[..i]);
  }

  lemma NothingRead(ix: Index, found: seq<Name>, s: seq<Slot>)
    ensures VisitSlots(ix, found, s[..0]) == found && SeenAll(ix, found, s[..0])
    ensures SlotForms(ix, found, s[..0]) == multiset{}
  {
  }

  lemma QueueGrows(order: seq<Name>, f0: seq<Name>, f1: seq<Name>, f2: seq<Name>)
    requires f0 <= f1 <= f2
    ensures order + f1[|f0|..] + f2[|f1|..] == order + f2[|f0|..]
  {
  }

  /** One table's rows: each is given its target, stages being named as they are met. */
  method ReadRows(ix: Index, names0: map<Name, nat>, order0: seq<Name>, rows: seq<Row>, ghost found0: seq<Name>)
    returns (names: map<Name, nat>, order: seq<Name>, forms: multiset<RowForm>, ghost found: seq<Name>)
    requires Stages(ix, found0) && NamesAre(names0, found0)
    ensures found == Visit(ix, found0, rows) && SeenAll(ix, found, Sort(Slots(rows)))
    ensures NamesAre(names, Visit(ix, found0, rows)) && order == order0 + Visit(ix, found0, rows)[|found0|..]
    ensures forms == RowForms(ix, Visit(ix, found0, rows), rows)
  {
    hide TargetOf, NamesAre, Sort, SeenAll, SlotForms, VisitSlots;
    var sorted := Sort(Slots(rows));
    names, order, forms, found := names0, order0, multiset{}, found0;
    var i := 0;
    NothingRead(ix, found, sorted);
    while i < |sorted|
      invariant 0 <= i <= |sorted|
      invariant found == VisitSlots(ix, found0, sorted[..i]) && found0 <= found && Stages(ix, found)
      invariant NamesAre(names, found)
      invariant order == order0 + found[|found0|..]
      invariant SeenAll(ix, found, sorted[..i])
      invariant forms == SlotForms(ix, found, sorted[..i])
    {
      ghost var was := found;
      var t;
      t, names, order, found := NameTarget(ix, names, order, sorted[i].row.next, found);
      RowRead(ix, found0, was, found, sorted, i);
      QueueGrows(order0, found0, was, found);
      forms := forms + multiset{(sorted[i].row.when, t)};
      i := i + 1;
    }
    assert sorted[..i] == sorted;
  }

  /** The stage forms written so far are those of the first stages named. */
  ghost predicate DefsAre(ix: Index, found: seq<Name>, defs: seq<StageForm>)
    requires Stages(ix, found)
  {
    && |defs| <= |found|
    && (forall k :: 0 <= k < |defs| ==> defs[k] == FormOfStage(ix, found, found[k]))
    && (forall k :: 0 <= k < |defs| ==> SeenAll(ix, found, Sort(Slots(ChainRows(ix, found[k])))))
  }

  lemma DefsStay(ix: Index, found: seq<Name>, more: seq<Name>, defs: seq<StageForm>)
    requires Stages(ix, found) && Stages(ix, more) && found <= more && DefsAre(ix, found, defs)
    ensures DefsAre(ix, more, defs)
  {
    forall k | 0 <= k < |defs|
      ensures defs[k] == FormOfStage(ix, more, more[k])
      ensures SeenAll(ix, more, Sort(Slots(ChainRows(ix, more[k]))))
    {
      assert found[k] == more[k];
      SeenStays(ix, found, more, Sort(Slots(ChainRows(ix, found[k]))));
    }
  }

  lemma DefsGrow(ix: Index, found: seq<Name>, defs: seq<StageForm>, next: StageForm)
    requires Stages(ix, found) && DefsAre(ix, found, defs) && |defs| < |found|
    requires next == FormOfStage(ix, found, found[|defs|])
    requires SeenAll(ix, found, Sort(Slots(ChainRows(ix, found[|defs|]))))
    ensures DefsAre(ix, found, defs + [next])
  {
    hide SeenAll, FormOfStage, Sort;
  }

  method Canonicalise(ix: Index) returns (form: Form)
    ensures form == CanonicalForm(ix)
  {
    hide TargetOf, Sort, VisitSlots, SlotForms, SeenAll, DefsAre;
    var names, order, selRows;
    ghost var found;
    names, order, selRows, found := ReadRows(ix, map[], [], SelRows(ix), []);
    ghost var first := found;
    var defs: seq<StageForm> := [];
    NothingDefined(ix, found);
    while order != []
      invariant Stages(ix, found) && NamesAre(names, found) && first <= found
      invariant |defs| <= |found| && order == found[|defs|..]
      invariant Explore(ix, found, |defs|) == Found(ix)
      invariant DefsAre(ix, found, defs)
      decreases |ix.stages| - |defs|
    {
      NoMoreThan(found, ix.stages.Keys);
      var wid := order[0];
      order := order[1..];
      assert wid == found[|defs|] && names[wid] == |defs|;
      ghost var was := found;
      var chain;
      names, order, chain, found := ReadRows(ix, names, order, ChainRows(ix, wid), found);
      QueueIsRest(was, found, |defs| + 1);
      DefsStay(ix, was, found, defs);
      var def := StageForm(FormsOfSteps(ix, ix.stages[wid]), chain, MatchesOf(ix, wid));
      DefsGrow(ix, found, defs, def);
      defs := defs + [def];
    }
    SeenStays(ix, first, found, Sort(Slots(SelRows(ix))));
    form := Form(ix.trigger.key, multiset(ix.trigger.episode), multiset(ix.trigger.requires_),
                 SelMatches(ix), selRows, defs);
    DefsDone(ix, found, defs);
  }

  lemma QueueIsRest(found: seq<Name>, more: seq<Name>, i: nat)
    requires found <= more && i <= |found|
    ensures found[i..] + more[|found|..] == more[i..]
    ensures i > 0 ==> found[i - 1..][1..] == found[i..]
  {
  }

  lemma NothingDefined(ix: Index, found: seq<Name>)
    requires Stages(ix, found)
    ensures DefsAre(ix, found, [])
  {
  }

  lemma DefsDone(ix: Index, found: seq<Name>, defs: seq<StageForm>)
    requires Stages(ix, found) && DefsAre(ix, found, defs) && |defs| == |found|
    ensures defs == seq(|found|, i requires 0 <= i < |found| => FormOfStage(ix, found, found[i]))
  {
    hide FormOfStage, SeenAll, Sort;
  }
}
