/**
 The other readings of a draft against the expected bundle: `dropped_steps`, `wrong_excludes` and
 `wrong_requires`; and when a bundle read against itself reads clean.
 */
module Readings {
  import opened Options
  import opened Bundles
  import opened Ordering
  import opened Pairing
  import opened Walk
  import opened Routes

  // ---- dropped_steps

  function Kinds(steps: seq<Step>): (r: seq<string>)
    ensures |r| == |steps|
    ensures forall i :: 0 <= i < |r| ==> r[i] == steps[i].kind
  {
    seq(|steps|, i requires 0 <= i < |steps| => steps[i].kind)
  }

  /** `all(k in rest for k in described)`: each search consumes the iterator up to its find. */
  predicate Consumes(described: seq<string>, rest: seq<string>) {
    if described == [] then true
    else if rest == [] then false
    else if rest[0] == described[0] then Consumes(described[1..], rest[1..])
    else Consumes(described, rest[1..])
  }

  /** `at` places each described step, in order, on a drafted step of its kind. */
  ghost predicate PlacedAt(described: seq<string>, drafted: seq<string>, at: seq<nat>) {
    && |at| == |described|
    && (forall i :: 0 <= i < |at| ==> at[i] < |drafted| && drafted[at[i]] == described[i])
    && (forall i, j :: 0 <= i < j < |at| ==> at[i] < at[j])
  }

  /** The same places, with one more step in front. */
  function Later(at: seq<nat>): (r: seq<nat>)
    ensures |r| == |at| && forall i :: 0 <= i < |r| ==> r[i] == at[i] + 1
  {
    seq(|at|, i requires 0 <= i < |at| => at[i] + 1)
  }

  lemma PlacedLater(described: seq<string>, rest: seq<string>, at: seq<nat>)
    requires rest != [] && PlacedAt(described, rest[1..], at)
    ensures PlacedAt(described, rest, Later(at))
  {
    forall i | 0 <= i < |at| ensures rest[at[i] + 1] == described[i] {
      assert rest[1..][at[i]] == described[i];
    }
  }

  lemma PlacedFirst(described: seq<string>, rest: seq<string>, at: seq<nat>)
    requires described != [] && rest != [] && rest[0] == described[0] && PlacedAt(described[1..], rest[1..], at)
    ensures PlacedAt(described, rest, [0] + Later(at))
  {
    PlacedLater(described[1..], rest, at);
    var all := [0] + Later(at);
    forall i | 0 <= i < |all| ensures all[i] < |rest| && rest[all[i]] == described[i] {
      if i > 0 {
        assert all[i] == Later(at)[i - 1] && described[i] == described[1..][i - 1];
        assert Later(at)[i - 1] < |rest| && rest[Later(at)[i - 1]] == described[1..][i - 1];
      }
    }
  }

  lemma {:induction false} ConsumesPlaces(described: seq<string>, rest: seq<string>) returns (at: seq<nat>)
    requires Consumes(described, rest)
    ensures PlacedAt(described, rest, at)
  {
    if described == [] {
      at := [];
    } else {
      hide PlacedAt;
      if rest[0] == described[0] {
        var tail := ConsumesPlaces(described[1..], rest[1..]);
        PlacedFirst(described, rest, tail);
        at := [0] + Later(tail);
      } else {
        var tail := ConsumesPlaces(described, rest[1..]);
        PlacedLater(described, rest, tail);
        at := Later(tail);
      }
    }
  }

  lemma {:induction false} PlacesConsumes(described: seq<string>, rest: seq<string>, at: seq<nat>)
    requires PlacedAt(described, rest, at)
    ensures Consumes(described, rest)
  {
    if described != [] {
      assert at[0] < |rest|;
      var found := rest[0] == described[0];
      if found {
        var tail := seq(|at| - 1, i requires 0 <= i < |at| - 1 => (at[i + 1] - 1) as nat);
        assert PlacedAt(described[1..], rest[1..], tail);
        PlacesConsumes(described[1..], rest[1..], tail);
      } else {
        assert at[0] > 0;
        assert forall i :: 0 < i < |at| ==> at[0] < at[i];
        var tail := seq(|at|, i requires 0 <= i < |at| => (at[i] - 1) as nat);
        assert PlacedAt(described, rest[1..], tail);
        PlacesConsumes(described, rest[1..], tail);
      }
    }
  }

  /** The draft holds every described step, in order, whatever it adds. */
  ghost predicate Embeds(described: seq<string>, drafted: seq<string>) {
    exists at: seq<nat> :: PlacedAt(described, drafted, at)
  }

  function DraftSteps(d: Index, pairs: map<Name, Name>, w: Name): seq<Step>
    requires Injective(pairs)
  {
    var back := Back(pairs);
    if w in back && back[w] in d.stages then d.stages[back[w]] else []
  }

  function DroppedSteps(d: Index, e: Index, pairs: map<Name, Name>): set<Name>
    requires Injective(pairs)
  {
    set w | w in e.stages && !Consumes(Kinds(e.stages[w]), Kinds(DraftSteps(d, pairs, w)))
  }

  /** The steps read against an expected stage: those of the draft stage paired with it, if it has any. */
  lemma Counterpart(d: Index, pairs: map<Name, Name>, w: Name)
    requires Injective(pairs)
    ensures forall s :: s in pairs && pairs[s] == w && s in d.stages ==> DraftSteps(d, pairs, w) == d.stages[s]
    ensures (forall s :: s in pairs && pairs[s] == w ==> s !in d.stages) ==> DraftSteps(d, pairs, w) == []
  {
  }

  /** A stage is reported exactly when its steps do not embed, in order, in its counterpart's. */
  lemma DroppedStepsIsExact(d: Index, e: Index, pairs: map<Name, Name>, w: Name)
    requires Injective(pairs) && w in e.stages
    ensures w in DroppedSteps(d, e, pairs) <==> !Embeds(Kinds(e.stages[w]), Kinds(DraftSteps(d, pairs, w)))
  {
    var x, y := Kinds(e.stages[w]), Kinds(DraftSteps(d, pairs, w));
    if Consumes(x, y) {
      var at := ConsumesPlaces(x, y);
    }
    if at: seq<nat> :| PlacedAt(x, y, at) {
      PlacesConsumes(x, y, at);
    }
  }

  // ---- wrong_excludes

  /** `_names`: a list's words in any order, nothing for a missing value. */
  function Names(value: Option<seq<Name>>): multiset<Name> {
    if value.Some? then multiset(value.value) else multiset{}
  }

  /** `next(s for s in rest if s.kind == kind)`: where the iterator stands after its find. */
  function Find(steps: seq<Step>, from: nat, kind: string): (j: nat)
    requires from <= |steps|
    ensures from <= j <= |steps|
    ensures j < |steps| ==> steps[j].kind == kind
    ensures forall k :: from <= k < j ==> steps[k].kind != kind
    decreases |steps| - from
  {
    if from == |steps| || steps[from].kind == kind then from else Find(steps, from + 1, kind)
  }

  /** The described steps, from `n` on, whose bar is not the draft's; `p` is where the iterator stands. */
  function WrongBars(described: seq<Step>, drafted: seq<Step>, n: nat, p: nat): (r: set<nat>)
    requires n <= |described| && p <= |drafted|
    decreases |described| - n
  {
    if n == |described| then {}
    else if described[n].excludes.None? then WrongBars(described, drafted, n + 1, p)
    else
      var j := Find(drafted, p, described[n].kind);
      var held := if j < |drafted| then drafted[j].excludes else None;
      var wrong := j == |drafted| || Names(held) != Names(described[n].excludes);
      (if wrong then {n} else {})
      + WrongBars(described, drafted, n + 1, if j < |drafted| then j + 1 else j)
  }

  function WrongExcludes(d: Index, e: Index, pairs: map<Name, Name>): set<(Name, nat)>
    requires Injective(pairs)
  {
    set w, n | w in e.stages && n in WrongBars(e.stages[w], DraftSteps(d, pairs, w), 0, 0) :: (w, n)
  }

  // ---- which bars are wrong, of any two lists of steps

  /** The kinds of the steps that have `excludes`, in order: what is sought in the draft. */
  function Barring(steps: seq<Step>): seq<string> {
    if steps == [] then []
    else
      var before := Barring(steps[..|steps| - 1]);
      if steps[|steps| - 1].excludes.Some? then before + [steps[|steps| - 1].kind] else before
  }

  /**
   The draft step read against described step `n`: up to it, and not before, the draft holds a step for each described
   step with `excludes` up to `n`, of its kind and in order.
   */
  ghost predicate ReadAgainst(described: seq<Step>, drafted: seq<Step>, n: nat, j: nat) {
    && n < |described| && j < |drafted|
    && Embeds(Barring(described[..n + 1]), Kinds(drafted[..j + 1]))
    && !Embeds(Barring(described[..n + 1]), Kinds(drafted[..j]))
  }

  /** The two bar the same people: as many times each, a missing list barring nobody. */
  ghost predicate SameBar(a: Option<seq<Name>>, b: Option<seq<Name>>) {
    forall x :: (if a.Some? then multiset(a.value)[x] else 0) == (if b.Some? then multiset(b.value)[x] else 0)
  }

  lemma SameBarExactly(a: Option<seq<Name>>, b: Option<seq<Name>>)
    ensures SameBar(a, b) <==> Names(a) == Names(b)
  {
    forall x ensures Names(a)[x] == (if a.Some? then multiset(a.value)[x] else 0) {
    }
    forall x ensures Names(b)[x] == (if b.Some? then multiset(b.value)[x] else 0) {
    }
  }

  lemma EmbedsExactly(described: seq<string>, drafted: seq<string>)
    ensures Embeds(described, drafted) <==> Consumes(described, drafted)
  {
    if Consumes(described, drafted) {
      var at := ConsumesPlaces(described, drafted);
    }
    if at: seq<nat> :| PlacedAt(described, drafted, at) {
      PlacesConsumes(described, drafted, at);
    }
  }

  /** Where the iterator stands before described step `n`: past what was found, or at the end. */
  ghost predicate IteratorAt(described: seq<Step>, drafted: seq<Step>, n: nat, p: nat)
    requires n <= |described|
  {
    var sought, rest := Barring(described[..n]), Kinds(drafted);
    p == if Consumes(sought, rest) then Passed(sought, rest) else |drafted|
  }

  /** Nothing more is found after a search that failed. */
  lemma {:induction false} ConsumesFewer(described: seq<string>, rest: seq<string>, kind: string)
    requires Consumes(described + [kind], rest)
    ensures Consumes(described, rest)
    decreases |rest|
  {
    if described != [] {
      assert (described + [kind])[0] == described[0];
      assert (described + [kind])[1..] == described[1..] + [kind];
      ConsumesFewer(if rest[0] == described[0] then described[1..] else described, rest[1..], kind);
    }
  }

  /** With no step of the kind past those passed, one more of it is not found. */
  lemma {:induction false} PassedNoMore(described: seq<string>, rest: seq<string>, kind: string)
    requires Consumes(described, rest)
    requires forall k :: Passed(described, rest) <= k < |rest| ==> rest[k] != kind
    ensures !Consumes(described + [kind], rest)
    decreases |rest|
  {
    if described == [] {
      assert described + [kind] == [kind];
      NoneOfKind(rest, kind);
    } else {
      assert (described + [kind])[0] == described[0];
      assert (described + [kind])[1..] == described[1..] + [kind];
      var next := if rest[0] == described[0] then described[1..] else described;
      forall k | Passed(next, rest[1..]) <= k < |rest[1..]| ensures rest[1..][k] != kind {
        assert rest[1..][k] == rest[k + 1];
      }
      PassedNoMore(next, rest[1..], kind);
    }
  }

  lemma {:induction false} NoneOfKind(rest: seq<string>, kind: string)
    requires forall k :: 0 <= k < |rest| ==> rest[k] != kind
    ensures !Consumes([kind], rest)
  {
    if rest != [] {
      NoneOfKind(rest[1..], kind);
    }
  }

  /** One described step with `excludes`: the step found for it, if any, and where the iterator stands then. */
  lemma IteratorMoves(described: seq<Step>, drafted: seq<Step>, n: nat, p: nat)
    requires n < |described| && described[n].excludes.Some? && p <= |drafted| && IteratorAt(described, drafted, n, p)
    ensures var j := Find(drafted, p, described[n].kind);
      && IteratorAt(described, drafted, n + 1, if j < |drafted| then j + 1 else j)
      && (forall i: nat :: ReadAgainst(described, drafted, n, i) <==> i == j < |drafted|)
  {
    var kind := described[n].kind;
    var sought, rest := Barring(described[..n]), Kinds(drafted);
    var j := Find(drafted, p, kind);
    assert described[..n + 1][..n] == described[..n];
    var more := sought + [kind];
    assert Barring(described[..n + 1]) == more;
    if j < |drafted| {
      assert Consumes(sought, rest);
      PassedOneMore(sought, rest, kind, j);
    } else if Consumes(sought, rest) {
      PassedNoMore(sought, rest, kind);
    } else if Consumes(more, rest) {
      ConsumesFewer(sought, rest, kind);
    }
    hide Barring, Find;
    forall i: nat | i < |drafted| ensures ReadAgainst(described, drafted, n, i) <==> i == j < |drafted| {
      assert rest[..i + 1] == Kinds(drafted[..i + 1]) && rest[..i] == Kinds(drafted[..i]);
      EmbedsExactly(more, rest[..i + 1]);
      EmbedsExactly(more, rest[..i]);
      ConsumesWithin(more, rest, i + 1);
      ConsumesWithin(more, rest, i);
    }
  }

  /** Described step `n` is reported: no draft step is read against it, or one with another bar. */
  ghost predicate Misbarred(described: seq<Step>, drafted: seq<Step>, n: nat) {
    && n < |described| && described[n].excludes.Some?
    && forall j: nat :: ReadAgainst(described, drafted, n, j) ==> !SameBar(drafted[j].excludes, described[n].excludes)
  }

  lemma {:induction false} WrongBarsFrom(described: seq<Step>, drafted: seq<Step>, n: nat, p: nat)
    requires n <= |described| && p <= |drafted| && IteratorAt(described, drafted, n, p)
    ensures forall m: nat :: m in WrongBars(described, drafted, n, p) <==> n <= m && Misbarred(described, drafted, m)
    decreases |described| - n
  {
    hide IteratorAt, ReadAgainst, SameBar, Names;
    if n < |described| {
      if described[n].excludes.None? {
        IteratorStays(described, drafted, n, p);
        WrongBarsFrom(described, drafted, n + 1, p);
      } else {
        IteratorMoves(described, drafted, n, p);
        var j := Find(drafted, p, described[n].kind);
        WrongBarsFrom(described, drafted, n + 1, if j < |drafted| then j + 1 else j);
        if j < |drafted| {
          SameBarExactly(drafted[j].excludes, described[n].excludes);
        }
      }
    }
  }

  lemma IteratorStays(described: seq<Step>, drafted: seq<Step>, n: nat, p: nat)
    requires n < |described| && described[n].excludes.None? && IteratorAt(described, drafted, n, p)
    ensures IteratorAt(described, drafted, n + 1, p)
  {
    assert described[..n + 1][..n] == described[..n];
    assert Barring(described[..n + 1]) == Barring(described[..n]);
  }

  /**
   A step's bar is reported exactly when it has `excludes`, and the draft step read against it bars others, or there is
   none.
   */
  lemma WrongExcludesExactly(d: Index, e: Index, pairs: map<Name, Name>, w: Name, n: nat)
    requires Injective(pairs)
    ensures (w, n) in WrongExcludes(d, e, pairs) <==>
      w in e.stages && Misbarred(e.stages[w], DraftSteps(d, pairs, w), n)
  {
    if w in e.stages {
      assert e.stages[w][..0] == [];
      WrongBarsFrom(e.stages[w], DraftSteps(d, pairs, w), 0, 0);
    }
    hide WrongBars, DraftSteps, Misbarred;
  }

  // ---- steps read against themselves

  /** `excludes` is there and bars nobody. */
  predicate EmptyBar(s: Step) {
    s.excludes == Some([])
  }

  /** The kinds of the steps whose `excludes` bars nobody, in order: what is sought between two barring steps. */
  function Sought(steps: seq<Step>): seq<string> {
    if steps == [] then []
    else Sought(steps[..|steps| - 1]) + if EmptyBar(steps[|steps| - 1]) then [steps[|steps| - 1].kind] else []
  }

  predicate NoBars(steps: seq<Step>, from: nat, to: nat) {
    forall k :: from <= k < to && k < |steps| ==> !Bars(steps[k])
  }

  /** No step of its kind, between `from` and the barring step `m`, stands past all that was sought there. */
  ghost predicate FoundItself(steps: seq<Step>, from: nat, m: nat)
    requires from <= m < |steps|
  {
    forall k :: from <= k < m && steps[k].kind == steps[m].kind ==>
      !Consumes(Sought(steps[from..m]), Kinds(steps[from..k]))
  }

  /** Each barring step is the one found for it; the search for it starts after the barring step before it. */
  ghost predicate BarsFindThemselves(steps: seq<Step>) {
    BarsFound(steps, 0, 0)
  }

  /** The barring steps from `n` on; for the first of them the search starts at `from`. */
  ghost predicate BarsFound(steps: seq<Step>, from: nat, n: nat) {
    forall q: nat, m: nat :: Segment(steps, from, n, q, m) ==> FoundItself(steps, q, m)
  }

  predicate Segment(steps: seq<Step>, from: nat, n: nat, q: nat, m: nat) {
    && q <= m < |steps| && n <= m && Bars(steps[m]) && NoBars(steps, q, m)
    && (q == from || (n < q && Bars(steps[q - 1])))
  }

  /** How many of the steps a greedy search for `described` passes. */
  function Passed(described: seq<string>, rest: seq<string>): (n: nat)
    requires Consumes(described, rest)
    ensures n <= |rest|
  {
    if described == [] then 0
    else 1 + Passed(if rest[0] == described[0] then described[1..] else described, rest[1..])
  }

  /** A search succeeds within the first `k` steps exactly when it passes no more than those. */
  lemma {:induction false} ConsumesWithin(described: seq<string>, rest: seq<string>, k: nat)
    requires k <= |rest|
    ensures Consumes(described, rest[..k]) <==> Consumes(described, rest) && Passed(described, rest) <= k
  {
    if described != [] && k > 0 {
      assert rest[..k][1..] == rest[1..][..k - 1];
      ConsumesWithin(if rest[0] == described[0] then described[1..] else described, rest[1..], k - 1);
    }
  }

  /** One more thing sought is found at the first step of its kind after those passed. */
  lemma {:induction false} PassedOneMore(described: seq<string>, rest: seq<string>, kind: string, j: nat)
    requires Consumes(described, rest)
    requires Passed(described, rest) <= j < |rest| && rest[j] == kind
    requires forall k :: Passed(described, rest) <= k < j ==> rest[k] != kind
    ensures Consumes(described + [kind], rest) && Passed(described + [kind], rest) == j + 1
    decreases |rest|
  {
    if described == [] {
      assert described + [kind] == [kind];
      PassedFirst(rest, kind, j);
    } else {
      var next := if rest[0] == described[0] then described[1..] else described;
      PassedOneMore(next, rest[1..], kind, j - 1);
      assert (described + [kind])[1..] == described[1..] + [kind];
    }
  }

  lemma {:induction false} PassedFirst(rest: seq<string>, kind: string, j: nat)
    requires j < |rest| && rest[j] == kind && forall k :: 0 <= k < j ==> rest[k] != kind
    ensures Consumes([kind], rest) && Passed([kind], rest) == j + 1
  {
    if j > 0 {
      PassedFirst(rest[1..], kind, j - 1);
    } else {
      assert [kind][1..] == [];
    }
  }

  /** Where the iterator stands before step `n`, when no step from `from` on has barred anyone. */
  ghost predicate StandsAt(steps: seq<Step>, from: nat, n: nat, p: nat)
    requires from <= n <= |steps|
  {
    && NoBars(steps, from, n) && from <= p <= n
    && Consumes(Sought(steps[from..n]), Kinds(steps[from..]))
    && Passed(Sought(steps[from..n]), Kinds(steps[from..])) == p - from
  }

  lemma StandsWithin(steps: seq<Step>, from: nat, n: nat, p: nat)
    requires from <= n <= |steps| && StandsAt(steps, from, n, p)
    ensures NoBars(steps, from, n) && from <= p <= n
  {
  }

  lemma StandsPastNone(steps: seq<Step>, from: nat, n: nat, p: nat)
    requires from <= n < |steps| && StandsAt(steps, from, n, p) && steps[n].excludes.None?
    ensures StandsAt(steps, from, n + 1, p)
  {
    var more := steps[from..n + 1];
    assert more[..n - from] == steps[from..n] && more[n - from] == steps[n];
    assert Sought(more) == Sought(steps[from..n]) + [] == Sought(steps[from..n]);
  }

  lemma StandsPastEmpty(steps: seq<Step>, from: nat, n: nat, p: nat, j: nat)
    requires from <= n < |steps| && StandsAt(steps, from, n, p) && EmptyBar(steps[n])
    requires p <= j <= n && steps[j].kind == steps[n].kind && forall k :: p <= k < j ==> steps[k].kind != steps[n].kind
    ensures StandsAt(steps, from, n + 1, j + 1)
  {
    assert steps[from..n + 1][..n - from] == steps[from..n];
    assert Sought(steps[from..n + 1]) == Sought(steps[from..n]) + [steps[n].kind];
    var rest := Kinds(steps[from..]);
    forall k | p - from <= k < j - from ensures rest[k] != steps[n].kind {
      assert rest[k] == steps[from + k].kind;
    }
    PassedOneMore(Sought(steps[from..n]), rest, steps[n].kind, j - from);
  }

  /** A barring step is found for itself exactly when no step of its kind is left before it. */
  lemma FoundExactly(steps: seq<Step>, from: nat, n: nat, p: nat)
    requires from <= n < |steps| && StandsAt(steps, from, n, p)
    ensures FoundItself(steps, from, n) <==> Find(steps, p, steps[n].kind) == n
  {
    var j := Find(steps, p, steps[n].kind);
    var sought, rest := Sought(steps[from..n]), Kinds(steps[from..]);
    forall k | from <= k < n ensures Consumes(sought, Kinds(steps[from..k])) <==> p <= k {
      ConsumesWithin(sought, rest, k - from);
      assert rest[..k - from] == Kinds(steps[from..k]);
    }
    hide Sought, Consumes;
  }

  lemma StandsAfterBar(steps: seq<Step>, n: nat)
    requires n < |steps|
    ensures StandsAt(steps, n + 1, n + 1, n + 1)
  {
    assert steps[n + 1..n + 1] == [];
  }

  /** Past a barring step the search starts anew. */
  lemma BarsFoundNext(steps: seq<Step>, from: nat, n: nat)
    requires from <= n < |steps| && NoBars(steps, from, n)
    ensures BarsFound(steps, from, n) <==>
      if Bars(steps[n]) then FoundItself(steps, from, n) && BarsFound(steps, n + 1, n + 1)
      else BarsFound(steps, from, n + 1)
  {
    hide FoundItself;
    forall q: nat, m: nat
      ensures Segment(steps, from, n, q, m) <==>
        if Bars(steps[n]) then (q == from && m == n) || Segment(steps, n + 1, n + 1, q, m)
        else Segment(steps, from, n + 1, q, m)
    {
    }
  }

  /** One step of the reading, where the iterator has not passed the step itself. */
  lemma OwnBarsStep(steps: seq<Step>, n: nat, p: nat)
    requires p <= n < |steps|
    ensures var j := Find(steps, p, steps[n].kind);
      j <= n && (WrongBars(steps, steps, n, p) == {} <==>
        if steps[n].excludes.None? then WrongBars(steps, steps, n + 1, p) == {}
        else Names(steps[j].excludes) == Names(steps[n].excludes) && WrongBars(steps, steps, n + 1, j + 1) == {})
  {
  }

  lemma OnlyOwnNames(steps: seq<Step>, from: nat, n: nat, j: nat)
    requires from <= j <= n < |steps| && NoBars(steps, from, n)
    ensures steps[n].excludes.Some? ==>
      (Names(steps[j].excludes) == Names(steps[n].excludes) <==> EmptyBar(steps[n]) || j == n)
  {
    if Bars(steps[n]) {
      assert Names(steps[n].excludes)[steps[n].excludes.value[0]] > 0;
    }
  }

  /** Where the iterator stands after step `n`, and from where the next barring step is sought. */
  lemma StandsNext(steps: seq<Step>, from: nat, n: nat, p: nat) returns (from': nat, p': nat)
    requires from <= n < |steps| && StandsAt(steps, from, n, p)
    ensures from' == (if Bars(steps[n]) then n + 1 else from) && StandsAt(steps, from', n + 1, p')
    ensures WrongBars(steps, steps, n, p) == {} <==>
      (Bars(steps[n]) ==> FoundItself(steps, from, n)) && WrongBars(steps, steps, n + 1, p') == {}
  {
    hide WrongBars, Names, Sought, Consumes, StandsAt, FoundItself, Kinds;
    StandsWithin(steps, from, n, p);
    OwnBarsStep(steps, n, p);
    var j := Find(steps, p, steps[n].kind);
    OnlyOwnNames(steps, from, n, j);
    from', p' := from, p;
    if steps[n].excludes.None? {
      StandsPastNone(steps, from, n, p);
    } else if EmptyBar(steps[n]) {
      StandsPastEmpty(steps, from, n, p, j);
      p' := j + 1;
    } else {
      FoundExactly(steps, from, n, p);
      StandsAfterBar(steps, n);
      from', p' := n + 1, n + 1;
    }
  }

  lemma {:induction false} OwnBarsFrom(steps: seq<Step>, from: nat, n: nat, p: nat)
    requires from <= n <= |steps| && StandsAt(steps, from, n, p)
    ensures WrongBars(steps, steps, n, p) == {} <==> BarsFound(steps, from, n)
    decreases |steps| - n
  {
    if n == |steps| {
      assert forall q: nat, m: nat :: !Segment(steps, from, n, q, m);
    } else {
      BarsFoundNext(steps, from, n);
      hide BarsFound, FoundItself, WrongBars, Sought, Consumes, Passed;
      var from', p' := StandsNext(steps, from, n, p);
      OwnBarsFrom(steps, from', n + 1, p');
    }
  }

  /** Steps read against themselves report no wrong bar exactly when each barring step is found for itself. */
  lemma OwnBarsExactly(steps: seq<Step>)
    ensures WrongBars(steps, steps, 0, 0) == {} <==> BarsFindThemselves(steps)
  {
    assert steps[0..0] == [];
    OwnBarsFrom(steps, 0, 0, 0);
  }

  /** No step without `excludes` stands before a step of its kind that bars someone. */
  ghost predicate NothingUnbarredBefore(steps: seq<Step>) {
    forall k, n :: 0 <= k < n < |steps| && steps[k].excludes.None? && Bars(steps[n]) ==> steps[k].kind != steps[n].kind
  }

  /** Steps the iterator has yet to pass hold no bar; those with an empty one follow one without. */
  ghost predicate Pending(steps: seq<Step>, p: nat, n: nat) {
    forall m :: p <= m < n <= |steps| ==> !Bars(steps[m]) && Behind(steps, m)
  }

  /** A step of its kind without `excludes` stands at or before step `m`. */
  ghost predicate Behind(steps: seq<Step>, m: nat)
    requires m < |steps|
  {
    exists k :: 0 <= k <= m && steps[k].excludes.None? && steps[k].kind == steps[m].kind
  }

  lemma BehindMeansNoBar(steps: seq<Step>, j: nat, n: nat)
    requires NothingUnbarredBefore(steps) && j < n < |steps|
    requires Behind(steps, j) && steps[j].kind == steps[n].kind
    ensures !Bars(steps[n]) && Behind(steps, n)
  {
    var k :| 0 <= k <= j && steps[k].excludes.None? && steps[k].kind == steps[j].kind;
  }

  lemma {:induction false} OrderedBarsAreRight(steps: seq<Step>, n: nat, p: nat)
    requires NothingUnbarredBefore(steps) && p <= n <= |steps| && Pending(steps, p, n)
    ensures WrongBars(steps, steps, n, p) == {}
    decreases |steps| - n
  {
    if n < |steps| {
      if steps[n].excludes.None? {
        assert Pending(steps, p, n + 1);
        OrderedBarsAreRight(steps, n + 1, p);
      } else {
        var j := Find(steps, p, steps[n].kind);
        assert j <= n;
        if j < n {
          assert Behind(steps, j);
          BehindMeansNoBar(steps, j, n);
          assert Names(steps[j].excludes) == Names(steps[n].excludes) == multiset{};
        }
        OrderedBarsAreRight(steps, n + 1, j + 1);
      }
    }
  }

  /** That order is one under which each barring step is found for itself. */
  lemma OrderedBarsFindThemselves(steps: seq<Step>)
    requires NothingUnbarredBefore(steps)
    ensures BarsFindThemselves(steps)
  {
    OrderedBarsAreRight(steps, 0, 0);
    OwnBarsExactly(steps);
  }

  // ---- wrong_requires

  /** The trigger's required details are not the ones the person named. */
  predicate WrongRequires(d: Index, e: Index) {
    multiset(d.trigger.requires_) != multiset(e.trigger.requires_)
  }

  /** They are reported exactly when some detail is required oftener by one than by the other. */
  lemma WrongRequiresExactly(d: Index, e: Index)
    ensures WrongRequires(d, e) <==>
      exists x :: multiset(d.trigger.requires_)[x] != multiset(e.trigger.requires_)[x]
  {
  }
}
