/** The loops of `merge_compact_into_canonical` over a store they change, and what a whole run keeps. */
module GraphRun {
  import opened Options
  import opened Basics
  import opened GraphMerge
  import opened GraphProps

  class Graph {
    var nodes: set<Uri>
    var classes: set<Uri>
    var edges: set<Edge>

    constructor (g: Store)
      ensures State() == g
    {
      nodes, classes, edges := g.nodes, g.classes, g.edges;
    }

    function State(): Store
      reads this
    {
      Store(nodes, classes, edges)
    }

    /** MATCH both ends, then apoc.merge.relationship. */
    method Rebuild(uris: map<Uri, Uri>, e: Edge)
      modifies this`edges
      ensures edges == MoveEdge(old(State()), uris, old(edges), e)
    {
      var props := RemapProps(e.props, uris);
      var s, o := Image(uris, e.src), Image(uris, e.tgt);
      if s in nodes && o in nodes {
        var found := set x | x in edges && Finds(x, s, e.kind, IriOf(props), o);
        if found == {} {
          edges := edges + {Edge(s, e.kind, props, o)};
        } else {
          edges := (edges - found) + set x | x in found :: x.(props := x.props + props);
        }
      }
    }

    /** One of the two loops: each listed relationship, in whatever order the store lists them. */
    method RebuildAll(uris: map<Uri, Uri>, listed: set<Edge>) returns (moved: nat, ghost order: seq<Edge>)
      modifies this`edges
      ensures Lists(order, listed) && moved == |listed|
      ensures edges == Rebuilt(old(State()), uris, old(edges), order)
    {
      hide MoveEdge;
      ghost var g := State();
      var todo := listed;
      moved, order := 0, [];
      while todo != {}
        invariant todo <= listed && moved == |listed| - |todo|
        invariant Lists(order, listed - todo)
        invariant edges == Rebuilt(g, uris, old(edges), order)
        decreases todo
      {
        var e :| e in todo;
        MovedByNodes(g, State(), uris, edges, e);
        Rebuild(uris, e);
        OneMore(g, uris, old(edges), order, e);
        order := order + [e];
        todo := todo - {e};
        moved := moved + 1;
      }
      assert listed - todo == listed;
    }

    /** One compact node; a dry run only counts. */
    method MigrateOne(uris: map<Uri, Uri>, compact: Uri, canonical: Uri, dryRun: bool) returns (delta: Delta)
      requires compact in uris && uris[compact] == canonical
      modifies this
      ensures delta.compact == compact
      ensures delta.Skipped? <==> compact !in old(classes) || canonical !in old(classes)
      ensures delta.Skipped? ==> (delta.why.CompactMissing? <==> compact !in old(classes))
      ensures dryRun || delta.Skipped? ==> State() == old(State())
      ensures !dryRun && delta.Done? ==> MigratedBy(old(State()), State(), uris, compact)
      ensures delta.Done? ==>
        && delta.inEdges == |InEdges(old(edges), compact)| && delta.outEdges == |OutEdges(old(edges), compact)|
        && delta.moved == if dryRun then 0 else delta.inEdges + delta.outEdges
    {
      hide Rebuilt, Lists;
      if compact !in classes {
        return Skipped(compact, CompactMissing);
      }
      if canonical !in classes {
        return Skipped(compact, CanonicalMissing);
      }
      ghost var g := State();
      var inEdges := set e | e in edges && e.tgt == compact;
      var outEdges := set e | e in edges && e.src == compact;
      if dryRun {
        return Done(compact, |inEdges|, |outEdges|, 0);
      }
      var m, ins := RebuildAll(uris, inEdges);
      NodesDecide(g, State(), uris, edges, ins);
      ghost var between := State();
      var n, outs := RebuildAll(uris, outEdges);
      NodesDecide(g, between, uris, between.edges, outs);
      RebuiltBoth(g, uris, g.edges, ins, outs);
      nodes := nodes - {compact};
      classes := classes - {compact};
      edges := edges - EdgesOf(edges, compact);
      assert State() == Deleted(g, uris, compact, ins + outs);
      delta := Done(compact, |inEdges|, |outEdges|, m + n);
    }

    /** `run`: every entry of the map, in the order the dictionary holds them. */
    method Run(uris: map<Uri, Uri>, order: seq<Uri>, dryRun: bool) returns (deltas: seq<Delta>)
      requires Canonises(uris) && WellFormed(State())
      requires NoDuplicates(order) && forall c :: c in order <==> c in uris
      modifies this
      ensures |deltas| == |order| && forall i :: 0 <= i < |order| ==> deltas[i].compact == order[i]
      ensures dryRun ==> State() == old(State())
      ensures !dryRun ==> TakenTo(old(State()), State(), uris, uris.Keys)
      ensures !dryRun ==> forall c :: c in nodes <==>
        c in old(nodes) && !(c in uris && c in old(classes) && uris[c] in old(classes))
      ensures NoTwins(old(edges)) ==> NoTwins(edges)
      ensures !dryRun && CleanBeyond(old(edges), uris, Migrating(old(State()), uris, uris.Keys)) ==>
        forall e :: e in edges ==> Clean(e, uris)
      ensures forall e, kept :: Stays(old(State()), uris, e, kept) ==> Standing(edges, uris, e, kept)
      ensures Sourced(old(edges), uris, edges)
      ensures (forall c :: !old(Migrates(State(), uris, c))) ==> State() == old(State())
    {
      hide CleanBeyond, Clean, Standing, Stranded, TakenTo, Migrated, Migrating, Migrates, Among, Anchored, WellFormed;
      hide Stays, Untouched, Sourced, MigratedBy, Lists, NoTwins;
      ghost var g0 := State();
      ghost var all := Migrating(g0, uris, uris.Keys);
      deltas := [];
      TakenNothing(g0, uris);
      AllStand(g0, uris);
      OwnSources(edges, uris);
      assert Among(order[..0]) == {} by {
        AmongAll(order, uris);
      }
      assert all - {} == all;
      var i := 0;
      while i < |order|
        invariant 0 <= i <= |order| && |deltas| == i
        invariant forall j :: 0 <= j < i ==> deltas[j].compact == order[j]
        invariant dryRun ==> State() == g0
        invariant TakenTo(g0, State(), uris, if dryRun then {} else Among(order[..i]))
        invariant !dryRun && CleanBeyond(g0.edges, uris, all) ==> CleanBeyond(edges, uris, all - Among(order[..i]))
        invariant forall e, kept :: Stays(g0, uris, e, kept) ==> Standing(edges, uris, e, kept)
        invariant Untouched(g0.edges, uris, edges) && Sourced(g0.edges, uris, edges)
        invariant NoTwins(g0.edges) ==> NoTwins(edges)
        invariant (forall c :: !Migrates(g0, uris, c)) ==> State() == g0
      {
        ghost var g := State();
        var delta := MigrateOne(uris, order[i], uris[order[i]], dryRun);
        AmongOneMore(g0, uris, order, i);
        if !dryRun {
          MigratesExactly(g, uris, order[i]);
          TakenStep(g0, g, State(), uris, Among(order[..i]), order[i]);
          if delta.Done? {
            MigrationKeeps(g0, g, State(), uris, Among(order[..i]), order[i], all - Among(order[..i]));
          }
        }
        deltas := deltas + [delta];
        i := i + 1;
      }
      assert order[..i] == order;
      AmongAll(order, uris);
      MigratingAreKeys(g0, uris);
      NodesLeft(g0, State(), uris);
      if !dryRun && CleanBeyond(g0.edges, uris, all) {
        CleanEverywhere(edges, uris);
      }
    }
  }

  lemma OneMore(g: Store, uris: map<Uri, Uri>, edges: set<Edge>, order: seq<Edge>, e: Edge)
    ensures Rebuilt(g, uris, edges, order + [e]) == MoveEdge(g, uris, Rebuilt(g, uris, edges, order), e)
  {
    assert (order + [e])[..|order|] == order;
  }

  predicate IsRebuilt(g0: Store, uris: map<Uri, Uri>, x: Edge) {
    (Migrates(g0, uris, x.src) || Migrates(g0, uris, x.tgt)) && !Stranded(g0, uris, x)
  }

  /** No relationship that the run rebuilds, and that may be merged into this one, has another of these values. */
  ghost predicate Uncontested(g0: Store, uris: map<Uri, Uri>, e: Edge, kept: set<string>) {
    forall x :: x in g0.edges && MayMeet(x, e, uris) && IsRebuilt(g0, uris, x) ==> Agree(x, e, uris, kept)
  }

  /** A relationship that is not stranded, with values that are not contested. */
  ghost predicate Stays(g0: Store, uris: map<Uri, Uri>, e: Edge, kept: set<string>) {
    e in g0.edges && !Stranded(g0, uris, e) && Uncontested(g0, uris, e, kept)
  }

  lemma TakenStep(g0: Store, g: Store, g': Store, uris: map<Uri, Uri>, done: set<Uri>, c: Uri)
    requires Canonises(uris) && c in uris && c !in done && done <= uris.Keys && TakenTo(g0, g, uris, done)
    requires if Migrates(g, uris, c) then MigratedBy(g, g', uris, c) else g' == g
    ensures (Migrates(g, uris, c) <==> Migrates(g0, uris, c)) && TakenTo(g0, g', uris, done + {c})
  {
    if Migrates(g, uris, c) {
      MigratedByFacts(g, g', uris, c);
    }
    hide Migrated, MigratedBy, Migrates;
    TakeOne(g0, g, g', uris, done, c);
  }

  /** What one migration of a run keeps. */
  lemma MigrationKeeps(g0: Store, g: Store, g': Store, uris: map<Uri, Uri>, done: set<Uri>, c: Uri, dirty: set<Uri>)
    requires Canonises(uris) && c in uris && done <= uris.Keys && dirty <= uris.Keys && TakenTo(g0, g, uris, done)
    requires Migrates(g, uris, c) && Migrates(g0, uris, c) && MigratedBy(g, g', uris, c)
    requires Untouched(g0.edges, uris, g.edges) && Sourced(g0.edges, uris, g.edges)
    ensures CleanBeyond(g.edges, uris, dirty) ==> CleanBeyond(g'.edges, uris, dirty - {c})
    ensures NoTwins(g.edges) ==> NoTwins(g'.edges)
    ensures Untouched(g0.edges, uris, g'.edges) && Sourced(g0.edges, uris, g'.edges)
    ensures forall e, kept :: Stays(g0, uris, e, kept) && Standing(g.edges, uris, e, kept) ==>
      Standing(g'.edges, uris, e, kept)
  {
    MigratedBySources(g0.edges, g, g', uris, c);
    NotStrandedAnchors(g0, g, uris, done, c);
    hide CleanBeyond, MigratedBy, Untouched, Sourced, Standing, TakenTo, Migrates, Stranded, Uncontested, Anchored;
    hide NoTwins;
    if NoTwins(g.edges) {
      MigratedByMakesNoTwins(g, g', uris, c);
    }
    if CleanBeyond(g.edges, uris, dirty) {
      MigratedByCleans(g, g', uris, c, dirty);
    }
    forall e, kept | Stays(g0, uris, e, kept) && Standing(g.edges, uris, e, kept)
      ensures Standing(g'.edges, uris, e, kept)
    {
      RivalsAreFirst(g0, g, uris, done, c, e, kept);
      MigratedByStands(g, g', uris, c, e, kept);
    }
  }

  /** What is rebuilt with a node was there before the run, and is not stranded. */
  lemma RivalsAreFirst(g0: Store, g: Store, uris: map<Uri, Uri>, done: set<Uri>, c: Uri, e: Edge, kept: set<string>)
    requires c in uris && Migrates(g0, uris, c) && TakenTo(g0, g, uris, done)
    requires Untouched(g0.edges, uris, g.edges) && Uncontested(g0, uris, e, kept)
    ensures NoRival(g, uris, EdgesOf(g.edges, c), e, kept)
  {
    hide MayMeet, Agree;
  }

  lemma AmongAll(order: seq<Uri>, uris: map<Uri, Uri>)
    ensures Among([]) == {} && order[..0] == []
    ensures (forall c :: c in order <==> c in uris) ==> Among(order) == uris.Keys
  {
  }

  lemma MigratesExactly(g: Store, uris: map<Uri, Uri>, c: Uri)
    requires c in uris
    ensures Migrates(g, uris, c) <==> c in g.classes && uris[c] in g.classes
  {
  }

  lemma NodesLeft(g0: Store, g: Store, uris: map<Uri, Uri>)
    ensures TakenTo(g0, g, uris, uris.Keys) ==> forall c :: c in g.nodes <==>
      c in g0.nodes && !(c in uris && c in g0.classes && uris[c] in g0.classes)
  {
  }

  lemma MigratingAreKeys(g0: Store, uris: map<Uri, Uri>)
    ensures Migrating(g0, uris, uris.Keys) - uris.Keys == {}
  {
  }

  /** One more entry taken: it is new, and what is left to clean loses it exactly when it is migrated. */
  lemma AmongOneMore(g0: Store, uris: map<Uri, Uri>, order: seq<Uri>, i: nat)
    requires i < |order| && NoDuplicates(order) && (forall c :: c in order <==> c in uris)
    ensures Among(order[..i + 1]) == Among(order[..i]) + {order[i]}
    ensures order[i] !in Among(order[..i]) && Among(order[..i]) <= uris.Keys
    ensures var left := Migrating(g0, uris, uris.Keys) - Among(order[..i]);
      && left <= uris.Keys
      && Migrating(g0, uris, uris.Keys) - Among(order[..i + 1]) == left - {order[i]}
      && (!Migrates(g0, uris, order[i]) ==> left - {order[i]} == left)
  {
    hide Migrates;
    assert order[..i + 1] == order[..i] + [order[i]];
  }

  lemma AllStand(g0: Store, uris: map<Uri, Uri>)
    ensures forall e, kept :: Stays(g0, uris, e, kept) ==> Standing(g0.edges, uris, e, kept)
  {
    forall e, kept | Stays(g0, uris, e, kept) ensures Standing(g0.edges, uris, e, kept) {
      assert CarriesOn(e, e, uris, kept);
    }
  }

  /** When a node is migrated, its relationships that are not stranded have both images there. */
  lemma NotStrandedAnchors(g0: Store, g: Store, uris: map<Uri, Uri>, done: set<Uri>, c: Uri)
    requires Canonises(uris) && TakenTo(g0, g, uris, done) && done <= uris.Keys && Migrates(g, uris, c)
    ensures forall e :: e in g0.edges && !Stranded(g0, uris, e) && Touches(e, c) ==> Anchored(g.nodes, uris, e)
  {
    forall e | e in g0.edges && !Stranded(g0, uris, e) && Touches(e, c) ensures Anchored(g.nodes, uris, e) {
      ImageIsNoKey(uris, e.src);
      ImageIsNoKey(uris, e.tgt);
    }
  }
}
