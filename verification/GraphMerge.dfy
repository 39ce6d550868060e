/**
 `merge_compact_into_canonical`: each compact node's relationships are rebuilt at its canonical node,
 one at a time, and the compact node is deleted. The store is a set of nodes and of relationships.
 */
module GraphMerge {
  import opened Options
  import opened Basics

  type Uri = string
  type Props = map<string, string>

  datatype Edge = Edge(src: Uri, kind: string, props: Props, tgt: Uri)

  /** `classes` are the nodes labelled OntologyClass. */
  datatype Store = Store(nodes: set<Uri>, classes: set<Uri>, edges: set<Edge>)

  ghost predicate WellFormed(g: Store) {
    && g.classes <= g.nodes
    && forall e :: e in g.edges ==> e.src in g.nodes && e.tgt in g.nodes
  }

  /** Canonical URIs are not themselves compact. */
  ghost predicate Canonises(uris: map<Uri, Uri>) {
    uris.Keys !! uris.Values
  }

  /** `URI_MAP.get(x, x)`. */
  function Image(uris: map<Uri, Uri>, x: Uri): Uri {
    if x in uris then uris[x] else x
  }

  // ---- the map in scope

  const MESH_NAMES: set<string> := {
    "AgentResponse", "AgentTask", "AssetProfile", "CatalogAssetQuery", "CatalogListing",
    "CatalogScopeQuery", "DatasetAnalysisReport", "DatasetAnalysisRequest", "FreshnessReport",
    "GraphExpertResponse", "GraphQuery", "ImpactSet", "InstanceIdentifier", "InstanceResolution",
    "KnowledgeQuery", "KnowledgeRetrievalResponse", "LineageTopology", "OwnershipFact", "Request",
    "Response", "SchemaDescription", "TagFilterResult"}
  const MRO_NAMES: set<string> := {"Diagram", "Equipment", "Procedure", "ProcedureStep", "Symptom"}
  const MESH := "http://invincible-agent/mesh#"
  const MRO := "https://" + "spec.industrialontologies.org/ontology/maintenance/MaintenanceReferenceOntology/"

  /** Each name of `names` under `short`, mapped to the name under `full`. */
  function Expand(short: string, full: string, names: set<string>): (m: map<Uri, Uri>)
    ensures m.Keys == set n | n in names :: short + n
    ensures forall n :: n in names ==> m[short + n] == full + n
  {
    assert forall n: string :: (short + n)[|short|..] == n;
    map n | n in names :: short + n := full + n
  }

  function UriMap(): map<Uri, Uri> {
    Expand("mesh:", MESH, MESH_NAMES) + Expand("mro:", MRO, MRO_NAMES)
  }

  lemma ExpandStarts(short: string, full: string, names: set<string>)
    requires short != [] && full != []
    ensures forall x :: x in Expand(short, full, names) ==>
      x != [] && x[0] == short[0] && Expand(short, full, names)[x] != [] && Expand(short, full, names)[x][0] == full[0]
  {
    var m := Expand(short, full, names);
    forall x | x in m ensures x != [] && x[0] == short[0] && m[x] != [] && m[x][0] == full[0] {
      var n :| n in names && x == short + n;
    }
  }

  lemma ExpandHas(short: string, full: string, names: set<string>, n: string)
    requires n in names
    ensures short + n in Expand(short, full, names) && Expand(short, full, names)[short + n] == full + n
  {
  }

  /** The 27 canonical URIs are none of the compact ones, and each is the full form of its compact one. */
  lemma UriMapCanonises()
    ensures Canonises(UriMap())
    ensures forall n :: n in MESH_NAMES ==>
      "mesh:" + n in UriMap() && UriMap()["mesh:" + n] == "http://invincible-agent/mesh#" + n
    ensures forall n :: n in MRO_NAMES ==> "mro:" + n in UriMap() && UriMap()["mro:" + n] == MRO + n
  {
    hide Expand, MESH_NAMES, MRO_NAMES;
    ExpandStarts("mesh:", MESH, MESH_NAMES);
    ExpandStarts("mro:", MRO, MRO_NAMES);
    assert MESH[0] == 'h' && MRO[0] == 'h' && "mesh:"[0] == 'm' && "mro:"[0] == 'm';
    var m := UriMap();
    forall x | x in m ensures x != [] && x[0] == 'm' && m[x] != [] && m[x][0] == 'h' {
      assert x in Expand("mro:", MRO, MRO_NAMES) || x in Expand("mesh:", MESH, MESH_NAMES);
    }
    forall n | n in MESH_NAMES ensures "mesh:" + n in m && m["mesh:" + n] == "http://invincible-agent/mesh#" + n {
      ExpandHas("mesh:", MESH, MESH_NAMES, n);
      assert ("mesh:" + n)[1] == 'e';
      forall k | k in MRO_NAMES ensures "mro:" + k != "mesh:" + n {
        assert ("mro:" + k)[1] == 'r';
      }
    }
    forall n | n in MRO_NAMES ensures "mro:" + n in m && m["mro:" + n] == MRO + n {
      ExpandHas("mro:", MRO, MRO_NAMES, n);
    }
  }

  // ---- _remap_props

  const URI_PROP_NAMES: set<string> := {"_input_uri", "_output_uri", "input_uri", "output_uri"}
  const IRI := "iri"

  function RemapProps(props: Props, uris: map<Uri, Uri>): (r: Props)
    ensures r.Keys == props.Keys
    ensures forall k :: k in props ==>
      r[k] == if k in URI_PROP_NAMES then Image(uris, props[k]) else props[k]
  {
    map k | k in props :: if k in URI_PROP_NAMES && props[k] in uris then uris[props[k]] else props[k]
  }

  /** After one remapping no URI-valued property names a compact node, and a second changes nothing. */
  lemma RemapPropsSettles(props: Props, uris: map<Uri, Uri>)
    requires Canonises(uris)
    ensures forall k :: k in props && k in URI_PROP_NAMES ==> RemapProps(props, uris)[k] !in uris
    ensures RemapProps(RemapProps(props, uris), uris) == RemapProps(props, uris)
  {
    forall k | k in props && k in URI_PROP_NAMES ensures Image(uris, props[k]) !in uris {
      if props[k] in uris { assert uris[props[k]] in uris.Values; }
    }
  }

  function IriOf(props: Props): Option<string> {
    if IRI in props then Some(props[IRI]) else None
  }

  lemma RemapKeepsIri(props: Props, uris: map<Uri, Uri>)
    ensures IriOf(RemapProps(props, uris)) == IriOf(props)
  {
    assert IRI !in URI_PROP_NAMES;
  }

  // ---- what a query finds

  predicate Fits(key: Option<string>, props: Props) {
    key.None? || IriOf(props) == key
  }

  predicate Finds(e: Edge, s: Uri, kind: string, key: Option<string>, o: Uri) {
    e.src == s && e.kind == kind && e.tgt == o && Fits(key, e.props)
  }

  /** These properties have the `iri` asked for, when one is. */
  ghost predicate Bears(props: Props, key: Option<string>) {
    key.Some? ==> "iri" in props && props["iri"] == key.value
  }

  /** The relationship joins the two nodes, with the type and the `iri` asked for. */
  ghost predicate Joins(e: Edge, s: Uri, kind: string, key: Option<string>, o: Uri) {
    e.src == s && e.kind == kind && e.tgt == o && Bears(e.props, key)
  }

  ghost predicate Holds(edges: set<Edge>, s: Uri, kind: string, key: Option<string>, o: Uri) {
    exists e :: e in edges && Joins(e, s, kind, key, o)
  }

  // ---- apoc.merge.relationship

  /** Find-or-create on endpoints, type and iri; the properties are written either way. */
  function Merged(edges: set<Edge>, s: Uri, kind: string, props: Props, o: Uri): set<Edge> {
    var found := set e | e in edges && Finds(e, s, kind, IriOf(props), o);
    if found == {} then edges + {Edge(s, kind, props, o)}
    else (edges - found) + set e | e in found :: e.(props := e.props + props)
  }

  /** A merge adds the fact it was asked for, and no other; none is lost. */
  lemma MergedHolds(edges: set<Edge>, s: Uri, kind: string, props: Props, o: Uri,
                    a: Uri, k: string, key: Option<string>, b: Uri)
    ensures Holds(Merged(edges, s, kind, props, o), a, k, key, b)
       <==> Holds(edges, a, k, key, b) || (a == s && k == kind && b == o && Bears(props, key))
  {
    var found := set e | e in edges && Finds(e, s, kind, IriOf(props), o);
    var after := Merged(edges, s, kind, props, o);
    if found == {} {
      var created := Edge(s, kind, props, o);
      assert created in after;
      if Holds(edges, a, k, key, b) {
        var e :| e in edges && Joins(e, a, k, key, b);
        assert e in after;
      }
      if a == s && k == kind && b == o && Bears(props, key) {
        assert Joins(created, a, k, key, b);
      }
    } else {
      forall e | e in found ensures e.(props := e.props + props) in after && IriOf(e.props + props) == IriOf(e.props) {
      }
      if Holds(edges, a, k, key, b) {
        var e :| e in edges && Joins(e, a, k, key, b);
        var e' := if e in found then e.(props := e.props + props) else e;
        assert e' in after && Joins(e', a, k, key, b);
      }
      if a == s && k == kind && b == o && Bears(props, key) {
        var e :| e in found;
        assert Joins(e.(props := e.props + props), a, k, key, b);
      }
      if Holds(after, a, k, key, b) {
        var e' :| e' in after && Joins(e', a, k, key, b);
        if e' !in edges {
          var e :| e in found && e' == e.(props := e.props + props);
          assert Joins(e, a, k, key, b);
        }
      }
    }
  }

  lemma MergedEnds(edges: set<Edge>, s: Uri, kind: string, props: Props, o: Uri)
    ensures forall e :: e in Merged(edges, s, kind, props, o) ==>
      (e.src == s && e.tgt == o) || exists e0 :: e0 in edges && e0.src == e.src && e0.tgt == e.tgt
  {
    var found := set e | e in edges && Finds(e, s, kind, IriOf(props), o);
    forall e | e in Merged(edges, s, kind, props, o)
      ensures (e.src == s && e.tgt == o) || exists e0 :: e0 in edges && e0.src == e.src && e0.tgt == e.tgt
    {
      if e in edges { assert e.src == e.src && e.tgt == e.tgt; }
    }
  }

  // ---- moving the relationships of one compact node

  /** A relationship of `from` whose rebuilt form can be anchored: both its new ends are there. */
  ghost predicate Moved(g: Store, uris: map<Uri, Uri>, from: set<Edge>,
                        a: Uri, k: string, key: Option<string>, b: Uri)
  {
    a in g.nodes && b in g.nodes
    && exists e :: e in from && Image(uris, e.src) == a && Image(uris, e.tgt) == b && e.kind == k && Bears(e.props, key)
  }

  /** One relationship rebuilt between the images of its ends, when MATCH finds them both. */
  function MoveEdge(g: Store, uris: map<Uri, Uri>, edges: set<Edge>, e: Edge): set<Edge> {
    var s, o := Image(uris, e.src), Image(uris, e.tgt);
    if s in g.nodes && o in g.nodes then Merged(edges, s, e.kind, RemapProps(e.props, uris), o) else edges
  }

  ghost predicate AfterMoves(g: Store, uris: map<Uri, Uri>, done: set<Edge>, edges: set<Edge>) {
    && (forall a, k, key, b :: Holds(edges, a, k, key, b) <==>
          Holds(g.edges, a, k, key, b) || Moved(g, uris, done, a, k, key, b))
    && (forall e :: e in edges ==> e.src in g.nodes && e.tgt in g.nodes)
  }

  lemma MoveEdgeMoves(g: Store, uris: map<Uri, Uri>, done: set<Edge>, edges: set<Edge>, e: Edge)
    requires AfterMoves(g, uris, done, edges)
    ensures AfterMoves(g, uris, done + {e}, MoveEdge(g, uris, edges, e))
  {
    var s, o := Image(uris, e.src), Image(uris, e.tgt);
    var props := RemapProps(e.props, uris);
    RemapKeepsIri(e.props, uris);
    var after := MoveEdge(g, uris, edges, e);
    forall a, k, key, b
      ensures Holds(after, a, k, key, b) <==> Holds(g.edges, a, k, key, b) || Moved(g, uris, done + {e}, a, k, key, b)
    {
      if s in g.nodes && o in g.nodes {
        MergedHolds(edges, s, e.kind, props, o, a, k, key, b);
      }
      MovedOne(g, uris, done, e, a, k, key, b);
    }
    if s in g.nodes && o in g.nodes {
      MergedEnds(edges, s, e.kind, props, o);
    }
  }

  lemma MovedOne(g: Store, uris: map<Uri, Uri>, done: set<Edge>, e: Edge,
             a: Uri, k: string, key: Option<string>, b: Uri)
    ensures Moved(g, uris, done + {e}, a, k, key, b) <==>
      (Moved(g, uris, done, a, k, key, b)
       || (a in g.nodes && b in g.nodes && Image(uris, e.src) == a && Image(uris, e.tgt) == b
           && e.kind == k && Bears(e.props, key)))
  {
  }

  /** The relationships of a list rebuilt one after another. */
  function Rebuilt(g: Store, uris: map<Uri, Uri>, edges: set<Edge>, ms: seq<Edge>): set<Edge> {
    if ms == [] then edges else MoveEdge(g, uris, Rebuilt(g, uris, edges, ms[..|ms| - 1]), ms[|ms| - 1])
  }

  lemma {:induction false} RebuiltBoth(g: Store, uris: map<Uri, Uri>, edges: set<Edge>, ms: seq<Edge>, ns: seq<Edge>)
    ensures Rebuilt(g, uris, edges, ms + ns) == Rebuilt(g, uris, Rebuilt(g, uris, edges, ms), ns)
    decreases |ns|
  {
    hide MoveEdge;
    if ns == [] {
      assert ms + ns == ms;
    } else {
      RebuiltBoth(g, uris, edges, ms, ns[..|ns| - 1]);
      assert (ms + ns)[..|ms + ns| - 1] == ms + ns[..|ns| - 1];
    }
  }

  lemma MovedByNodes(g: Store, h: Store, uris: map<Uri, Uri>, edges: set<Edge>, e: Edge)
    requires g.nodes == h.nodes
    ensures MoveEdge(g, uris, edges, e) == MoveEdge(h, uris, edges, e)
  {
  }

  lemma {:induction false} NodesDecide(g: Store, h: Store, uris: map<Uri, Uri>, edges: set<Edge>, ms: seq<Edge>)
    requires g.nodes == h.nodes
    ensures Rebuilt(g, uris, edges, ms) == Rebuilt(h, uris, edges, ms)
  {
    if ms != [] {
      NodesDecide(g, h, uris, edges, ms[..|ms| - 1]);
    }
  }

  function SetOf(ms: seq<Edge>): set<Edge> {
    set e | e in ms
  }

  lemma SetOfMore(ms: seq<Edge>)
    requires ms != []
    ensures SetOf(ms) == SetOf(ms[..|ms| - 1]) + {ms[|ms| - 1]}
  {
    assert ms == ms[..|ms| - 1] + [ms[|ms| - 1]];
  }

  lemma {:induction false} RebuiltMoves(g: Store, uris: map<Uri, Uri>, ms: seq<Edge>)
    requires WellFormed(g)
    ensures AfterMoves(g, uris, SetOf(ms), Rebuilt(g, uris, g.edges, ms))
  {
    if ms == [] {
      NothingMoved(g, uris);
      assert SetOf(ms) == {};
    } else {
      hide AfterMoves, MoveEdge, SetOf, WellFormed;
      RebuiltMoves(g, uris, ms[..|ms| - 1]);
      MoveEdgeMoves(g, uris, SetOf(ms[..|ms| - 1]), Rebuilt(g, uris, g.edges, ms[..|ms| - 1]), ms[|ms| - 1]);
      SetOfMore(ms);
    }
  }

  lemma NothingMoved(g: Store, uris: map<Uri, Uri>)
    requires WellFormed(g)
    ensures AfterMoves(g, uris, {}, g.edges)
  {
  }

  // ---- one compact node

  datatype Skip = CompactMissing | CanonicalMissing

  datatype Delta = Skipped(compact: Uri, why: Skip) | Done(compact: Uri, inEdges: nat, outEdges: nat, moved: nat)

  predicate Migrates(g: Store, uris: map<Uri, Uri>, c: Uri) {
    c in uris && c in g.classes && uris[c] in g.classes
  }

  predicate Touches(e: Edge, c: Uri) {
    e.src == c || e.tgt == c
  }

  function EdgesOf(edges: set<Edge>, c: Uri): set<Edge> {
    set e | e in edges && Touches(e, c)
  }

  /** What deleting `c` after the moves leaves. */
  ghost predicate Migrated(g: Store, g': Store, uris: map<Uri, Uri>, c: Uri) {
    && g'.nodes == g.nodes - {c} && g'.classes == g.classes - {c}
    && (forall a, k, key, b :: Holds(g'.edges, a, k, key, b) <==>
          (a != c && b != c && (Holds(g.edges, a, k, key, b)
             || Moved(g, uris, EdgesOf(g.edges, c), a, k, key, b))))
    && WellFormed(g')
  }

  function InEdges(edges: set<Edge>, c: Uri): set<Edge> {
    set e | e in edges && e.tgt == c
  }

  function OutEdges(edges: set<Edge>, c: Uri): set<Edge> {
    set e | e in edges && e.src == c
  }

  /** The list holds each of these relationships once. */
  ghost predicate Lists(ms: seq<Edge>, edges: set<Edge>) {
    NoDuplicates(ms) && forall e :: e in ms <==> e in edges
  }

  /** The store once the relationships of the list are rebuilt and the node is detached and deleted. */
  function Deleted(g: Store, uris: map<Uri, Uri>, c: Uri, ms: seq<Edge>): Store {
    var edges := Rebuilt(g, uris, g.edges, ms);
    Store(g.nodes - {c}, g.classes - {c}, edges - EdgesOf(edges, c))
  }

  /** The node's incoming relationships are rebuilt in some order, then its outgoing ones, and it is deleted. */
  ghost predicate MigratedBy(g: Store, g': Store, uris: map<Uri, Uri>, c: Uri) {
    exists ins, outs ::
      Lists(ins, InEdges(g.edges, c)) && Lists(outs, OutEdges(g.edges, c)) && g' == Deleted(g, uris, c, ins + outs)
  }

  lemma InAndOut(edges: set<Edge>, c: Uri, ins: seq<Edge>, outs: seq<Edge>)
    requires Lists(ins, InEdges(edges, c)) && Lists(outs, OutEdges(edges, c))
    ensures SetOf(ins + outs) == EdgesOf(edges, c)
  {
    hide NoDuplicates;
  }

  /** Whatever the order, the facts that leaves are these. */
  lemma MigratedByFacts(g: Store, g': Store, uris: map<Uri, Uri>, c: Uri)
    requires WellFormed(g) && MigratedBy(g, g', uris, c)
    ensures Migrated(g, g', uris, c)
  {
    hide Lists, Rebuilt, AfterMoves, SetOf, WellFormed, Migrated;
    var ins, outs :| Lists(ins, InEdges(g.edges, c)) && Lists(outs, OutEdges(g.edges, c))
      && g' == Deleted(g, uris, c, ins + outs);
    InAndOut(g.edges, c, ins, outs);
    RebuiltMoves(g, uris, ins + outs);
    DetachDelete(g, uris, c, Rebuilt(g, uris, g.edges, ins + outs));
  }

  lemma DetachDelete(g: Store, uris: map<Uri, Uri>, c: Uri, edges: set<Edge>)
    requires WellFormed(g) && AfterMoves(g, uris, EdgesOf(g.edges, c), edges)
    ensures var g' := Store(g.nodes - {c}, g.classes - {c}, edges - EdgesOf(edges, c));
      Migrated(g, g', uris, c) && WellFormed(g')
  {
    var left := edges - EdgesOf(edges, c);
    forall a, k, key, b ensures Holds(left, a, k, key, b) <==> a != c && b != c && Holds(edges, a, k, key, b) {
      if a != c && b != c && Holds(edges, a, k, key, b) {
        var e :| e in edges && Joins(e, a, k, key, b);
        assert e in left;
      }
    }
  }

  // ---- the whole run

  /** The compact nodes among `done` that can be migrated. */
  function Migrating(g0: Store, uris: map<Uri, Uri>, done: set<Uri>): set<Uri> {
    set c | c in done && Migrates(g0, uris, c)
  }

  /** Where an original relationship stands once the nodes of `gone` are migrated, if anywhere. */
  ghost predicate Arrives(g0: Store, uris: map<Uri, Uri>, gone: set<Uri>, e: Edge,
                    a: Uri, k: string, key: Option<string>, b: Uri)
  {
    && e.kind == k && Bears(e.props, key)
    && (if e.src in gone || e.tgt in gone
        then Image(uris, e.src) == a && Image(uris, e.tgt) == b && a in g0.nodes && b in g0.nodes
        else e.src == a && e.tgt == b)
  }

  ghost predicate SomeArrives(g0: Store, uris: map<Uri, Uri>, gone: set<Uri>,
                              a: Uri, k: string, key: Option<string>, b: Uri)
  {
    exists e :: e in g0.edges && Arrives(g0, uris, gone, e, a, k, key, b)
  }

  /** The store reached from `g0` by taking the compact nodes `done`, in any order. */
  ghost predicate TakenTo(g0: Store, g: Store, uris: map<Uri, Uri>, done: set<Uri>) {
    var gone := Migrating(g0, uris, done);
    && WellFormed(g)
    && g.nodes == g0.nodes - gone && g.classes == g0.classes - gone
    && forall a, k, key, b :: Holds(g.edges, a, k, key, b) <==> SomeArrives(g0, uris, gone, a, k, key, b)
  }

  lemma ImageIsNoKey(uris: map<Uri, Uri>, x: Uri)
    requires Canonises(uris)
    ensures Image(uris, x) !in uris
  {
    if x in uris { assert uris[x] in uris.Values; }
  }

  lemma ImageTwice(uris: map<Uri, Uri>, x: Uri)
    requires Canonises(uris)
    ensures Image(uris, Image(uris, x)) == Image(uris, x)
  {
    ImageIsNoKey(uris, x);
  }

  lemma TakenNothing(g0: Store, uris: map<Uri, Uri>)
    requires WellFormed(g0)
    ensures TakenTo(g0, g0, uris, {})
  {
    assert Migrating(g0, uris, {}) == {};
    forall a, k, key, b ensures Holds(g0.edges, a, k, key, b) <==> SomeArrives(g0, uris, {}, a, k, key, b) {
      if Holds(g0.edges, a, k, key, b) {
        var e :| e in g0.edges && Joins(e, a, k, key, b);
        assert Arrives(g0, uris, {}, e, a, k, key, b);
      }
    }
  }

  /** Taking one more node: a skipped one changes nothing, a migrated one composes. */
  lemma TakeOne(g0: Store, g: Store, g': Store, uris: map<Uri, Uri>, done: set<Uri>, c: Uri)
    requires Canonises(uris) && c in uris && c !in done && done <= uris.Keys && TakenTo(g0, g, uris, done)
    requires if Migrates(g, uris, c) then Migrated(g, g', uris, c) else g' == g
    ensures Migrates(g, uris, c) <==> Migrates(g0, uris, c)
    ensures TakenTo(g0, g', uris, done + {c})
  {
    var gone, gone' := Migrating(g0, uris, done), Migrating(g0, uris, done + {c});
    ImageIsNoKey(uris, c);
    if Migrates(g0, uris, c) {
      assert gone' == gone + {c};
      forall a, k, key, b ensures Holds(g'.edges, a, k, key, b) <==> SomeArrives(g0, uris, gone', a, k, key, b) {
        if Holds(g'.edges, a, k, key, b) { HeldArrives(g0, g, g', uris, done, c, a, k, key, b); }
        if SomeArrives(g0, uris, gone', a, k, key, b) { ArrivedHolds(g0, g, g', uris, done, c, a, k, key, b); }
      }
    } else {
      assert gone' == gone;
    }
  }

  lemma HeldArrives(g0: Store, g: Store, g': Store, uris: map<Uri, Uri>, done: set<Uri>, c: Uri,
                    a: Uri, k: string, key: Option<string>, b: Uri)
    requires Canonises(uris) && c in uris && TakenTo(g0, g, uris, done) && Migrated(g, g', uris, c)
    requires Holds(g'.edges, a, k, key, b)
    ensures SomeArrives(g0, uris, Migrating(g0, uris, done) + {c}, a, k, key, b)
  {
    var gone := Migrating(g0, uris, done);
    if Holds(g.edges, a, k, key, b) {
      var e :| e in g0.edges && Arrives(g0, uris, gone, e, a, k, key, b);
      ImageIsNoKey(uris, e.src);
      ImageIsNoKey(uris, e.tgt);
      assert Arrives(g0, uris, gone + {c}, e, a, k, key, b);
    } else {
      var e1 :| e1 in EdgesOf(g.edges, c) && Image(uris, e1.src) == a && Image(uris, e1.tgt) == b
        && e1.kind == k && Bears(e1.props, key);
      assert Joins(e1, e1.src, k, key, e1.tgt);
      assert Holds(g.edges, e1.src, k, key, e1.tgt);
      var e :| e in g0.edges && Arrives(g0, uris, gone, e, e1.src, k, key, e1.tgt);
      ImageIsNoKey(uris, e.src);
      ImageIsNoKey(uris, e.tgt);
      assert Arrives(g0, uris, gone + {c}, e, a, k, key, b);
    }
  }

  lemma ArrivedHolds(g0: Store, g: Store, g': Store, uris: map<Uri, Uri>, done: set<Uri>, c: Uri,
                     a: Uri, k: string, key: Option<string>, b: Uri)
    requires Canonises(uris) && c in uris && done <= uris.Keys && TakenTo(g0, g, uris, done) && Migrated(g, g', uris, c)
    requires SomeArrives(g0, uris, Migrating(g0, uris, done) + {c}, a, k, key, b)
    ensures Holds(g'.edges, a, k, key, b)
  {
    var gone := Migrating(g0, uris, done);
    var e :| e in g0.edges && Arrives(g0, uris, gone + {c}, e, a, k, key, b);
    ImageIsNoKey(uris, e.src);
    ImageIsNoKey(uris, e.tgt);
    if e.src in gone || e.tgt in gone || !Touches(e, c) {
      assert Arrives(g0, uris, gone, e, a, k, key, b);
      assert Holds(g.edges, a, k, key, b);
    } else {
      assert Arrives(g0, uris, gone, e, e.src, k, key, e.tgt);
      assert Holds(g.edges, e.src, k, key, e.tgt);
      var e1 :| e1 in g.edges && Joins(e1, e.src, k, key, e.tgt);
      assert e1 in EdgesOf(g.edges, c);
      assert Moved(g, uris, EdgesOf(g.edges, c), a, k, key, b);
    }
  }

  function Among(order: seq<Uri>): set<Uri> {
    set c | c in order
  }

  // ---- what the run leaves

  /** The source's hypotheses: every canonical node is there, and every compact node is a class. */
  ghost predicate Ready(g0: Store, uris: map<Uri, Uri>) {
    && (forall c :: c in uris ==> uris[c] in g0.classes)
    && (forall c :: c in uris && c in g0.nodes ==> c in g0.classes)
  }

  /** The map has `a` for a compact `x`, and any other name stands for itself. */
  ghost predicate ReadsAs(uris: map<Uri, Uri>, x: Uri, a: Uri) {
    (x in uris ==> uris[x] == a) && (x !in uris ==> x == a)
  }

  /**
   With every canonical node there, the result is the quotient by the map: no compact node remains,
   every fact holds between the images of its ends, with the `iri` it had, and no other fact holds.
   */
  lemma MergeIsQuotient(g0: Store, g: Store, uris: map<Uri, Uri>)
    requires Canonises(uris) && WellFormed(g0) && Ready(g0, uris) && TakenTo(g0, g, uris, uris.Keys)
    ensures g.nodes == g0.nodes - uris.Keys
    ensures forall a, k, key, b :: Holds(g.edges, a, k, key, b) <==>
      exists s, o :: Holds(g0.edges, s, k, key, o) && ReadsAs(uris, s, a) && ReadsAs(uris, o, b)
  {
    var gone := Migrating(g0, uris, uris.Keys);
    forall e | e in g0.edges
      ensures Image(uris, e.src) in g0.nodes && Image(uris, e.tgt) in g0.nodes
      ensures (e.src in gone <==> e.src in uris) && (e.tgt in gone <==> e.tgt in uris)
    {
    }
    forall a, k, key, b ensures Holds(g.edges, a, k, key, b) <==>
      exists s, o :: Holds(g0.edges, s, k, key, o) && ReadsAs(uris, s, a) && ReadsAs(uris, o, b)
    {
      if Holds(g.edges, a, k, key, b) {
        assert SomeArrives(g0, uris, gone, a, k, key, b);
        var e :| e in g0.edges && Arrives(g0, uris, gone, e, a, k, key, b);
        assert Joins(e, e.src, k, key, e.tgt);
        assert Holds(g0.edges, e.src, k, key, e.tgt);
      }
      if s, o :| Holds(g0.edges, s, k, key, o) && ReadsAs(uris, s, a) && ReadsAs(uris, o, b) {
        var e :| e in g0.edges && Joins(e, s, k, key, o);
        assert Arrives(g0, uris, gone, e, a, k, key, b);
        assert SomeArrives(g0, uris, gone, a, k, key, b);
      }
    }
  }

  /** The relationship joins a node that is migrated to one whose canonical node is not in the store. */
  predicate Stranded(g0: Store, uris: map<Uri, Uri>, e: Edge) {
    || (Migrates(g0, uris, e.src) && Image(uris, e.tgt) !in g0.nodes)
    || (Migrates(g0, uris, e.tgt) && Image(uris, e.src) !in g0.nodes)
  }

  /** Where the run puts an end of a relationship: at its image, or where it is when neither end migrates. */
  function NewEnd(g0: Store, uris: map<Uri, Uri>, e: Edge, end: Uri): Uri {
    if Migrates(g0, uris, e.src) || Migrates(g0, uris, e.tgt) then Image(uris, end) else end
  }

  /** The two say the same once each name is read as the map has it. */
  ghost predicate SameFact(x: Edge, e: Edge, uris: map<Uri, Uri>, key: Option<string>) {
    && Image(uris, x.src) == Image(uris, e.src) && x.kind == e.kind && Image(uris, x.tgt) == Image(uris, e.tgt)
    && Bears(x.props, key)
  }

  /** Some relationship of the store says what this one said. */
  ghost predicate Said(edges: set<Edge>, e: Edge, uris: map<Uri, Uri>, key: Option<string>) {
    exists x :: x in edges && SameFact(x, e, uris, key)
  }

  /**
   What a run leaves of a relationship, on any store: it stands where the run puts it unless it is stranded, and
   nothing is left that says the same exactly when every relationship that said so is stranded.
   */
  lemma LostExactlyStranded(g0: Store, g: Store, uris: map<Uri, Uri>, e: Edge, key: Option<string>)
    requires Canonises(uris) && WellFormed(g0) && TakenTo(g0, g, uris, uris.Keys)
    requires e in g0.edges && Bears(e.props, key)
    ensures Holds(g.edges, NewEnd(g0, uris, e, e.src), e.kind, key, NewEnd(g0, uris, e, e.tgt)) <==>
      !Stranded(g0, uris, e)
    ensures !Said(g.edges, e, uris, key) <==>
      forall x :: x in g0.edges && SameFact(x, e, uris, key) ==> Stranded(g0, uris, x)
  {
    Placed(g0, g, uris, e, key);
    if Said(g.edges, e, uris, key) {
      SaidBefore(g0, g, uris, e, key);
    }
    forall x | x in g0.edges && SameFact(x, e, uris, key) && !Stranded(g0, uris, x)
      ensures Said(g.edges, e, uris, key)
    {
      StillSaid(g0, g, uris, x, key);
      var now :| now in g.edges && SameFact(now, x, uris, key);
      assert SameFact(now, e, uris, key);
    }
  }

  lemma StillSaid(g0: Store, g: Store, uris: map<Uri, Uri>, x: Edge, key: Option<string>)
    requires Canonises(uris) && WellFormed(g0) && TakenTo(g0, g, uris, uris.Keys)
    requires x in g0.edges && Bears(x.props, key) && !Stranded(g0, uris, x)
    ensures Said(g.edges, x, uris, key)
  {
    Placed(g0, g, uris, x, key);
    var a, b := NewEnd(g0, uris, x, x.src), NewEnd(g0, uris, x, x.tgt);
    var now :| now in g.edges && Joins(now, a, x.kind, key, b);
    ImageTwice(uris, x.src);
    ImageTwice(uris, x.tgt);
    assert SameFact(now, x, uris, key);
  }

  lemma Placed(g0: Store, g: Store, uris: map<Uri, Uri>, e: Edge, key: Option<string>)
    requires WellFormed(g0) && TakenTo(g0, g, uris, uris.Keys) && e in g0.edges && Bears(e.props, key)
    ensures Holds(g.edges, NewEnd(g0, uris, e, e.src), e.kind, key, NewEnd(g0, uris, e, e.tgt)) <==>
      !Stranded(g0, uris, e)
  {
    var gone := Migrating(g0, uris, uris.Keys);
    var a, b := NewEnd(g0, uris, e, e.src), NewEnd(g0, uris, e, e.tgt);
    assert e.src in gone <==> Migrates(g0, uris, e.src);
    assert e.tgt in gone <==> Migrates(g0, uris, e.tgt);
    if !Stranded(g0, uris, e) {
      assert Arrives(g0, uris, gone, e, a, e.kind, key, b);
      assert SomeArrives(g0, uris, gone, a, e.kind, key, b);
    }
  }

  /** What the run leaves was said before it, by a relationship that is not stranded. */
  lemma SaidBefore(g0: Store, g: Store, uris: map<Uri, Uri>, e: Edge, key: Option<string>)
    requires Canonises(uris) && WellFormed(g0) && TakenTo(g0, g, uris, uris.Keys) && Said(g.edges, e, uris, key)
    ensures exists x :: x in g0.edges && SameFact(x, e, uris, key) && !Stranded(g0, uris, x)
  {
    var gone := Migrating(g0, uris, uris.Keys);
    var now :| now in g.edges && SameFact(now, e, uris, key);
    assert Joins(now, now.src, now.kind, key, now.tgt);
    assert Holds(g.edges, now.src, now.kind, key, now.tgt);
    var x :| x in g0.edges && Arrives(g0, uris, gone, x, now.src, now.kind, key, now.tgt);
    ImageTwice(uris, x.src);
    ImageTwice(uris, x.tgt);
    assert x.src in gone <==> Migrates(g0, uris, x.src);
    assert x.tgt in gone <==> Migrates(g0, uris, x.tgt);
    assert SameFact(x, e, uris, key);
  }

  /** Two relationships that are not stranded and have different `iri`s leave two, each with its own. */
  lemma TwoIrisStayTwo(g0: Store, g: Store, uris: map<Uri, Uri>, x: Edge, y: Edge)
    requires Canonises(uris) && WellFormed(g0) && TakenTo(g0, g, uris, uris.Keys)
    requires x in g0.edges && y in g0.edges && !Stranded(g0, uris, x) && !Stranded(g0, uris, y)
    requires "iri" in x.props && "iri" in y.props && x.props["iri"] != y.props["iri"]
    ensures exists now, other :: (
      && now in g.edges && other in g.edges && now != other
      && Joins(now, NewEnd(g0, uris, x, x.src), x.kind, Some(x.props["iri"]), NewEnd(g0, uris, x, x.tgt))
      && Joins(other, NewEnd(g0, uris, y, y.src), y.kind, Some(y.props["iri"]), NewEnd(g0, uris, y, y.tgt)))
  {
    hide Stranded, NewEnd;
    Placed(g0, g, uris, x, Some(x.props["iri"]));
    Placed(g0, g, uris, y, Some(y.props["iri"]));
    var now :| now in g.edges
      && Joins(now, NewEnd(g0, uris, x, x.src), x.kind, Some(x.props["iri"]), NewEnd(g0, uris, x, x.tgt));
    var other :| other in g.edges
      && Joins(other, NewEnd(g0, uris, y, y.src), y.kind, Some(y.props["iri"]), NewEnd(g0, uris, y, y.tgt));
    assert now.props["iri"] != other.props["iri"];
  }

  // ---- no twins

  /** The two say one thing twice: the same type between the same nodes, with one `iri` or both without. */
  ghost predicate Twins(x: Edge, y: Edge) {
    && x != y && x.src == y.src && x.kind == y.kind && x.tgt == y.tgt
    && ("iri" in x.props <==> "iri" in y.props) && ("iri" in x.props ==> x.props["iri"] == y.props["iri"])
  }

  ghost predicate NoTwins(edges: set<Edge>) {
    forall x, y :: x in edges && y in edges ==> !Twins(x, y)
  }

  /** A relationship is found rather than made again: where there are no twins, a merge makes none. */
  lemma MergedMakesNoTwins(edges: set<Edge>, s: Uri, kind: string, props: Props, o: Uri)
    requires NoTwins(edges)
    ensures NoTwins(Merged(edges, s, kind, props, o))
  {
    var found := set e | e in edges && Finds(e, s, kind, IriOf(props), o);
    var after := Merged(edges, s, kind, props, o);
    forall e | e in found ensures IriOf(e.props + props) == IriOf(e.props) {
    }
    forall x, y | x in after && y in after && x != y ensures !Twins(x, y) {
      if found == {} {
        if x in edges && y in edges { assert !Twins(x, y); }
      } else {
        var x0 := if x in edges - found then x else WasFound(found, props, x);
        var y0 := if y in edges - found then y else WasFound(found, props, y);
        assert !Twins(x0, y0);
      }
    }
  }

  ghost function WasFound(found: set<Edge>, props: Props, x: Edge): (e: Edge)
    requires exists e :: e in found && x == e.(props := e.props + props)
    ensures e in found && x == e.(props := e.props + props)
  {
    var e :| e in found && x == e.(props := e.props + props);
    e
  }

  lemma {:induction false} RebuiltMakesNoTwins(g: Store, uris: map<Uri, Uri>, edges: set<Edge>, ms: seq<Edge>)
    requires NoTwins(edges)
    ensures NoTwins(Rebuilt(g, uris, edges, ms))
  {
    hide NoTwins, Merged, RemapProps;
    if ms != [] {
      var m := ms[|ms| - 1];
      var before := Rebuilt(g, uris, edges, ms[..|ms| - 1]);
      RebuiltMakesNoTwins(g, uris, edges, ms[..|ms| - 1]);
      MergedMakesNoTwins(before, Image(uris, m.src), m.kind, RemapProps(m.props, uris), Image(uris, m.tgt));
    }
  }

  lemma MigratedByMakesNoTwins(g: Store, g': Store, uris: map<Uri, Uri>, c: Uri)
    requires MigratedBy(g, g', uris, c) && NoTwins(g.edges)
    ensures NoTwins(g'.edges)
  {
    hide Lists, Rebuilt, Twins;
    var ins, outs :| Lists(ins, InEdges(g.edges, c)) && Lists(outs, OutEdges(g.edges, c))
      && g' == Deleted(g, uris, c, ins + outs);
    RebuiltMakesNoTwins(g, uris, g.edges, ins + outs);
  }

  /** For any two compact names: a store with the canonical node of one alone, from which a run loses a relationship. */
  lemma RunLosesRelationship(uris: map<Uri, Uri>, c: Uri, d: Uri, kind: string, props: Props, g: Store)
    requires Canonises(uris) && c in uris && d in uris && uris[c] != uris[d]
    ensures var nodes := {c, uris[c], d};
      var g0 := Store(nodes, nodes, {Edge(c, kind, props, d)});
      && WellFormed(g0)
      && (TakenTo(g0, g, uris, uris.Keys) ==> g.nodes == {uris[c], d} && g.edges == {})
  {
    var nodes := {c, uris[c], d};
    var e := Edge(c, kind, props, d);
    var g0 := Store(nodes, nodes, {e});
    assert uris[c] in uris.Values && uris[d] in uris.Values;
    assert Stranded(g0, uris, e);
    assert Migrating(g0, uris, uris.Keys) == {c};
    if TakenTo(g0, g, uris, uris.Keys) {
      AllSaidBefore(g0, g, uris);
    }
  }

  lemma AllSaidBefore(g0: Store, g: Store, uris: map<Uri, Uri>)
    requires Canonises(uris) && WellFormed(g0) && TakenTo(g0, g, uris, uris.Keys)
    ensures forall now :: now in g.edges ==> exists x :: x in g0.edges && !Stranded(g0, uris, x)
  {
    forall now | now in g.edges ensures exists x :: x in g0.edges && !Stranded(g0, uris, x) {
      assert SameFact(now, now, uris, None);
      SaidBefore(g0, g, uris, now, None);
    }
  }

  /** After a run, in any order, nothing is left to migrate: a second run changes nothing. */
  lemma NothingLeft(g0: Store, g: Store, uris: map<Uri, Uri>)
    requires TakenTo(g0, g, uris, uris.Keys)
    ensures forall c :: !Migrates(g, uris, c)
  {
    forall c ensures !Migrates(g, uris, c) {
      if Migrates(g0, uris, c) {
        assert c in Migrating(g0, uris, uris.Keys);
      }
    }
  }
}
