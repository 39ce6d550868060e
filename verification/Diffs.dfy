/**
 `_walk` and `semantic_diffs`: the places where two nested dictionaries part, and the canonical form
 as such a dictionary.
 */
module Diffs {
  import opened Options
  import opened Bundles
  import opened Canonical
  import opened Isomorphism

  /** The keys of the canonical form; `Wf(k)` is the k-th stage named. */
  datatype Key =
    | TriggerKey | SelectionKey | DefsKey
    | KeyKey | EpisodeKey | RequiresKey | MatchesKey | RowsKey | StepsKey | ChainKey
    | Wf(k: nat)

  datatype Leaf =
    | Word(word: Option<string>)
    | Words(words: multiset<string>)
    | Routes(rows: multiset<RowForm>)
    | Steps(steps: seq<StepForm>)

  datatype Value = Atom(leaf: Leaf) | Dict(items: map<Key, Value>)

  type Path = seq<Key>

  function Walk(prefix: Path, a: Value, b: Value): set<Path>
    decreases a
  {
    if a.Dict? && b.Dict? then
      (set k | k in a.items.Keys + b.items.Keys && (k !in a.items || k !in b.items) :: prefix + [k])
      + (set k, p | k in a.items && k in b.items && p in Walk(prefix + [k], a.items[k], b.items[k]) :: p)
    else if a != b then {prefix}
    else {}
  }

  // ---- where two values part

  function At(v: Value, p: Path): Option<Value> {
    if p == [] then Some(v)
    else if v.Dict? && p[0] in v.items then At(v.items[p[0]], p[1..])
    else None
  }

  /** Both values are dictionaries down to `p`, where they differ and are not both dictionaries. */
  ghost predicate PartAt(a: Value, b: Value, p: Path) {
    var x, y := At(a, p), At(b, p);
    && x != y && !(x.Some? && x.value.Dict? && y.Some? && y.value.Dict?)
    && (p != [] ==>
          var u, v := At(a, p[..|p| - 1]), At(b, p[..|p| - 1]);
          u.Some? && u.value.Dict? && v.Some? && v.value.Dict?)
  }

  lemma PartBelow(a: Value, b: Value, k: Key, q: Path)
    requires a.Dict? && b.Dict? && k in a.items && k in b.items
    ensures PartAt(a, b, [k] + q) <==> PartAt(a.items[k], b.items[k], q)
  {
    var p := [k] + q;
    assert p[1..] == q;
    if q != [] {
      assert p[..|p| - 1] == [k] + q[..|q| - 1];
      assert p[..|p| - 1][1..] == q[..|q| - 1];
    } else {
      assert p[..|p| - 1] == [];
    }
  }

  /** The paths reported are exactly the places where the two values part. */
  lemma {:induction false} WalkIsExact(prefix: Path, a: Value, b: Value, q: Path)
    ensures prefix + q in Walk(prefix, a, b) <==> PartAt(a, b, q)
    decreases a
  {
    if a.Dict? && b.Dict? {
      WalkExtends(prefix, a, b);
      if q == [] {
        assert prefix + q == prefix;
      } else {
        var k := q[0];
        assert q == [k] + q[1..];
        assert prefix + q == prefix + [k] + q[1..];
        if k in a.items && k in b.items {
          WalkIsExact(prefix + [k], a.items[k], b.items[k], q[1..]);
          PartBelow(a, b, k, q[1..]);
          WalkBelow(prefix, a, b, k, q[1..]);
        } else {
          PartHere(prefix, a, b, k, q);
        }
      }
    } else {
      assert prefix + q == prefix <==> q == [];
      if q != [] {
        var u, v := At(a, q[..|q| - 1]), At(b, q[..|q| - 1]);
        if |q| > 1 { assert q[..|q| - 1][0] == q[0]; }
      }
    }
  }

  /** Every path reported extends the prefix, properly below two dictionaries. */
  lemma {:induction false} WalkExtends(prefix: Path, a: Value, b: Value)
    ensures forall p :: p in Walk(prefix, a, b) ==> prefix <= p && (a.Dict? && b.Dict? ==> |p| > |prefix|)
    decreases a
  {
    if a.Dict? && b.Dict? {
      forall p | p in Walk(prefix, a, b) ensures prefix <= p && |p| > |prefix| {
        if k :| k in a.items && k in b.items && p in Walk(prefix + [k], a.items[k], b.items[k]) {
          WalkExtends(prefix + [k], a.items[k], b.items[k]);
          assert prefix <= prefix + [k] <= p;
        }
      }
    }
  }

  /** A path through a shared key is reported when it is reported below that key. */
  lemma WalkBelow(prefix: Path, a: Value, b: Value, k: Key, q: Path)
    requires a.Dict? && b.Dict? && k in a.items && k in b.items
    ensures prefix + [k] + q in Walk(prefix, a, b) <==> prefix + [k] + q in Walk(prefix + [k], a.items[k], b.items[k])
  {
    var p := prefix + [k] + q;
    if p in Walk(prefix, a, b) {
      assert p[|prefix|] == k;
      forall k' | p == prefix + [k'] ensures k' == k {
        assert p[|prefix|] == k';
      }
      var k' :| k' in a.items && k' in b.items && p in Walk(prefix + [k'], a.items[k'], b.items[k']);
      WalkExtends(prefix + [k'], a.items[k'], b.items[k']);
      assert p[|prefix|] == (prefix + [k'])[|prefix|] == k';
    }
  }

  /** A key only one dictionary has is reported itself, and nothing below it. */
  lemma PartHere(prefix: Path, a: Value, b: Value, k: Key, q: Path)
    requires a.Dict? && b.Dict? && !(k in a.items && k in b.items) && q != [] && q[0] == k
    ensures prefix + q in Walk(prefix, a, b) <==> PartAt(a, b, q)
  {
    var p := prefix + q;
    assert p[|prefix|] == k;
    if |q| == 1 {
      assert q == [k] && q[..0] == [];
      assert At(a, q).Some? <==> k in a.items;
      assert At(b, q).Some? <==> k in b.items;
      if k in a.items || k in b.items {
        assert k in a.items.Keys + b.items.Keys;
      }
      NotBelow(prefix, a, b, p, k);
    } else {
      assert q[..|q| - 1][0] == k;
      NotBelow(prefix, a, b, p, k);
      assert forall k' :: prefix + [k'] != p by {
        assert |p| > |prefix| + 1;
      }
    }
  }

  lemma NotBelow(prefix: Path, a: Value, b: Value, p: Path, k: Key)
    requires a.Dict? && b.Dict? && !(k in a.items && k in b.items)
    requires |p| > |prefix| && p[|prefix|] == k
    ensures forall k' :: k' in a.items && k' in b.items ==> p !in Walk(prefix + [k'], a.items[k'], b.items[k'])
  {
    forall k' | k' in a.items && k' in b.items ensures p !in Walk(prefix + [k'], a.items[k'], b.items[k']) {
      WalkExtends(prefix + [k'], a.items[k'], b.items[k']);
      assert (prefix + [k'])[|prefix|] == k';
    }
  }

  /** Nothing is reported exactly when the two values are equal. */
  lemma {:induction false} NoDiffsIsEqual(prefix: Path, a: Value, b: Value)
    ensures Walk(prefix, a, b) == {} <==> a == b
    decreases a
  {
    if a.Dict? && b.Dict? {
      forall k | k in a.items && k in b.items
        ensures Walk(prefix + [k], a.items[k], b.items[k]) == {} <==> a.items[k] == b.items[k]
      {
        NoDiffsIsEqual(prefix + [k], a.items[k], b.items[k]);
      }
      if Walk(prefix, a, b) == {} {
        forall k | k in a.items.Keys + b.items.Keys ensures k in a.items && k in b.items {
          assert (k in a.items && k in b.items) || prefix + [k] in Walk(prefix, a, b);
        }
        forall k | k in a.items ensures a.items[k] == b.items[k] {
          forall p ensures p !in Walk(prefix + [k], a.items[k], b.items[k]) {
            assert p in Walk(prefix + [k], a.items[k], b.items[k]) ==> p in Walk(prefix, a, b);
          }
        }
        assert a.items == b.items;
      }
    }
  }

  // ---- the canonical form as a nested dictionary

  function TreeOfStage(s: StageForm): Value {
    Dict(map[StepsKey := Atom(Steps(s.steps)), ChainKey := Atom(Routes(s.chain)),
             MatchesKey := Atom(Words(s.matches))])
  }

  function TriggerTree(f: Form): Value {
    Dict(map[KeyKey := Atom(Word(f.key)), EpisodeKey := Atom(Words(f.episode)),
             RequiresKey := Atom(Words(f.requires_))])
  }

  function SelectionTree(f: Form): Value {
    Dict(map[MatchesKey := Atom(Words(f.matches)), RowsKey := Atom(Routes(f.rows))])
  }

  function DefsTree(f: Form): Value {
    Dict(map k: nat | k < |f.stages| :: Wf(k) := TreeOfStage(f.stages[k]))
  }

  function Tree(f: Form): Value {
    Dict(map[TriggerKey := TriggerTree(f), SelectionKey := SelectionTree(f), DefsKey := DefsTree(f)])
  }

  lemma StageTreeInjective(s: StageForm, t: StageForm)
    requires TreeOfStage(s) == TreeOfStage(t)
    ensures s == t
  {
    var a, b := TreeOfStage(s).items, TreeOfStage(t).items;
    assert a[StepsKey] == b[StepsKey];
    assert a[ChainKey] == b[ChainKey];
    assert a[MatchesKey] == b[MatchesKey];
  }

  lemma TreeInjective(f: Form, g: Form)
    requires Tree(f) == Tree(g)
    ensures f == g
  {
    PartsOf(f, g);
    hide Tree, TriggerTree, SelectionTree, DefsTree;
    TriggerInjective(f, g);
    SelectionInjective(f, g);
    DefsInjective(f, g);
  }

  lemma PartsOf(f: Form, g: Form)
    requires Tree(f) == Tree(g)
    ensures TriggerTree(f) == TriggerTree(g) && SelectionTree(f) == SelectionTree(g) && DefsTree(f) == DefsTree(g)
  {
    hide TriggerTree, SelectionTree, DefsTree;
    var a, b := Tree(f).items, Tree(g).items;
    assert a[TriggerKey] == b[TriggerKey] && a[SelectionKey] == b[SelectionKey] && a[DefsKey] == b[DefsKey];
  }

  lemma TriggerInjective(f: Form, g: Form)
    requires TriggerTree(f) == TriggerTree(g)
    ensures f.key == g.key && f.episode == g.episode && f.requires_ == g.requires_
  {
    var a, b := TriggerTree(f).items, TriggerTree(g).items;
    assert a[KeyKey] == b[KeyKey] && a[EpisodeKey] == b[EpisodeKey] && a[RequiresKey] == b[RequiresKey];
  }

  lemma SelectionInjective(f: Form, g: Form)
    requires SelectionTree(f) == SelectionTree(g)
    ensures f.matches == g.matches && f.rows == g.rows
  {
    var a, b := SelectionTree(f).items, SelectionTree(g).items;
    assert a[MatchesKey] == b[MatchesKey] && a[RowsKey] == b[RowsKey];
  }

  lemma DefsInjective(f: Form, g: Form)
    requires DefsTree(f) == DefsTree(g)
    ensures f.stages == g.stages
  {
    hide TreeOfStage;
    var a, b := DefsTree(f), DefsTree(g);
    var m, n := |f.stages|, |g.stages|;
    assert (Wf(m) in a.items <==> m < m) && (Wf(m) in b.items <==> m < n);
    assert (Wf(n) in a.items <==> n < m) && (Wf(n) in b.items <==> n < n);
    forall k: nat | k < |f.stages| ensures f.stages[k] == g.stages[k] {
      assert a.items[Wf(k)] == b.items[Wf(k)];
      StageTreeInjective(f.stages[k], g.stages[k]);
    }
  }

  function SemanticDiffs(drafted: Index, expected: Index): set<Path> {
    Walk([], Tree(CanonicalForm(drafted)), Tree(CanonicalForm(expected)))
  }

  /**
   No semantic difference is reported exactly when the canonical forms are equal; and, on tables that
   spell each `when` once, exactly when a renaming of reachable stages carries one bundle to the other.
   */
  lemma NoSemanticDiffs(drafted: Index, expected: Index)
    ensures SemanticDiffs(drafted, expected) == {} <==> CanonicalForm(drafted) == CanonicalForm(expected)
    ensures WellSpelt(drafted) && WellSpelt(expected) ==>
      (SemanticDiffs(drafted, expected) == {} <==> exists h :: Carries(drafted, expected, h))
  {
    hide CanonicalForm, Carries, WellSpelt, Tree, Walk;
    var f, g := CanonicalForm(drafted), CanonicalForm(expected);
    NoDiffsIsEqual([], Tree(f), Tree(g));
    if Tree(f) == Tree(g) {
      TreeInjective(f, g);
    }
    if WellSpelt(drafted) && WellSpelt(expected) {
      CanonicalIsExact(drafted, expected);
    }
  }
}
