/**
 What a merge of duplicates makes of the properties of relationships: which names and values stand, where each value
 comes from, and that none names a compact node.
 */
module GraphProps {
  import opened Options
  import opened Basics
  import opened GraphMerge

  /** The four properties whose value is a name. */
  ghost predicate NamesNode(p: string) {
    p == "_input_uri" || p == "_output_uri" || p == "input_uri" || p == "output_uri"
  }

  /** No URI-valued property names a compact node. */
  ghost predicate Clean(e: Edge, uris: map<Uri, Uri>) {
    forall k :: k in e.props && NamesNode(k) ==> e.props[k] !in uris
  }

  /** Every relationship that touches none of these nodes is clean. */
  ghost predicate CleanBeyond(edges: set<Edge>, uris: map<Uri, Uri>, gone: set<Uri>) {
    forall e :: e in edges && e.src !in gone && e.tgt !in gone ==> Clean(e, uris)
  }

  lemma MoveEdgeCleans(g: Store, uris: map<Uri, Uri>, edges: set<Edge>, e: Edge, gone: set<Uri>)
    requires Canonises(uris) && gone <= uris.Keys && CleanBeyond(edges, uris, gone)
    ensures CleanBeyond(MoveEdge(g, uris, edges, e), uris, gone)
  {
    RemapPropsSettles(e.props, uris);
    ImageIsNoKey(uris, e.src);
    ImageIsNoKey(uris, e.tgt);
  }

  lemma {:induction false} RebuiltCleans(g: Store, uris: map<Uri, Uri>, edges: set<Edge>, ms: seq<Edge>, gone: set<Uri>)
    requires Canonises(uris) && gone <= uris.Keys && CleanBeyond(edges, uris, gone)
    ensures CleanBeyond(Rebuilt(g, uris, edges, ms), uris, gone)
  {
    hide CleanBeyond, MoveEdge;
    if ms != [] {
      RebuiltCleans(g, uris, edges, ms[..|ms| - 1], gone);
      MoveEdgeCleans(g, uris, Rebuilt(g, uris, edges, ms[..|ms| - 1]), ms[|ms| - 1], gone);
    }
  }

  /** Deleting the node leaves clean what was clean clear of it. */
  lemma MigratedByCleans(g: Store, g': Store, uris: map<Uri, Uri>, c: Uri, gone: set<Uri>)
    requires Canonises(uris) && MigratedBy(g, g', uris, c) && gone <= uris.Keys && CleanBeyond(g.edges, uris, gone)
    ensures CleanBeyond(g'.edges, uris, gone - {c})
  {
    hide Lists, Rebuilt, Clean;
    var ins, outs :| Lists(ins, InEdges(g.edges, c)) && Lists(outs, OutEdges(g.edges, c))
      && g' == Deleted(g, uris, c, ins + outs);
    RebuiltCleans(g, uris, g.edges, ins + outs, gone);
  }

  /** Two values of a property are one once each URI-valued one is read as the map has it. */
  ghost predicate SameValue(uris: map<Uri, Uri>, p: string, v: string, w: string) {
    if NamesNode(p) then Image(uris, v) == Image(uris, w) else v == w
  }

  /** Of these properties, the two have one value for each that both have. */
  ghost predicate Agree(x: Edge, e: Edge, uris: map<Uri, Uri>, kept: set<string>) {
    forall p :: p in kept && p in x.props && p in e.props ==> SameValue(uris, p, x.props[p], e.props[p])
  }

  /** The one may come to be merged into what carries the other on. */
  predicate MayMeet(x: Edge, e: Edge, uris: map<Uri, Uri>) {
    && Image(uris, x.src) == Image(uris, e.src) && x.kind == e.kind && Image(uris, x.tgt) == Image(uris, e.tgt)
    && ("iri" in x.props && "iri" in e.props ==> x.props["iri"] == e.props["iri"])
  }

  /**
   A relationship that carries on another: between its ends or their images, with its type, iri and property names,
   and with its values of the properties in `kept`.
   */
  ghost predicate CarriesOn(now: Edge, e: Edge, uris: map<Uri, Uri>, kept: set<string>) {
    && now.kind == e.kind && e.props.Keys <= now.props.Keys
    && ("iri" in e.props ==> "iri" in now.props && now.props["iri"] == e.props["iri"])
    && now.src in {e.src, Image(uris, e.src)} && now.tgt in {e.tgt, Image(uris, e.tgt)}
    && Agree(now, e, uris, kept)
  }

  ghost predicate Standing(edges: set<Edge>, uris: map<Uri, Uri>, e: Edge, kept: set<string>) {
    exists now :: now in edges && CarriesOn(now, e, uris, kept)
  }

  /** The relationship is carried on clear of the node. */
  ghost predicate StandingOff(edges: set<Edge>, uris: map<Uri, Uri>, e: Edge, kept: set<string>, c: Uri) {
    exists now :: now in edges && CarriesOn(now, e, uris, kept) && !Touches(now, c)
  }

  predicate Anchored(nodes: set<Uri>, uris: map<Uri, Uri>, e: Edge) {
    Image(uris, e.src) in nodes && Image(uris, e.tgt) in nodes
  }

  /** A merge of nothing that has another value leaves what stands standing, with no property name lost. */
  lemma MergedStands(edges: set<Edge>, made: Edge, uris: map<Uri, Uri>, e: Edge, kept: set<string>, c: Uri)
    requires Canonises(uris) && (MayMeet(made, e, uris) ==> Agree(made, e, uris, kept))
    ensures var after := Merged(edges, made.src, made.kind, made.props, made.tgt);
      && (StandingOff(edges, uris, e, kept, c) ==> StandingOff(after, uris, e, kept, c))
      && (CarriesOn(made, e, uris, kept) && !Touches(made, c) ==> StandingOff(after, uris, e, kept, c))
  {
    var found := set x | x in edges && Finds(x, made.src, made.kind, IriOf(made.props), made.tgt);
    var after := Merged(edges, made.src, made.kind, made.props, made.tgt);
    MergedGrows(edges, made.src, made.kind, made.props, made.tgt);
    hide Merged, CarriesOn, MayMeet, Agree;
    if StandingOff(edges, uris, e, kept, c) {
      var now :| now in edges && CarriesOn(now, e, uris, kept) && !Touches(now, c);
      var grown := now.(props := now.props + made.props);
      if now in found {
        GrownCarries(now, made, e, uris, kept);
        assert grown in after && CarriesOn(grown, e, uris, kept) && !Touches(grown, c);
      } else {
        assert now in after;
      }
    }
    if CarriesOn(made, e, uris, kept) && !Touches(made, c) {
      if found == {} {
        assert made in after;
      } else {
        var now :| now in found;
        var grown := now.(props := now.props + made.props);
        FoundCarries(now, made, e, uris, kept);
        assert grown in after && CarriesOn(grown, e, uris, kept) && !Touches(grown, c);
      }
    }
  }

  lemma MergedGrows(edges: set<Edge>, s: Uri, kind: string, props: Props, o: Uri)
    ensures var found := set x | x in edges && Finds(x, s, kind, IriOf(props), o);
      var after := Merged(edges, s, kind, props, o);
      && (found == {} ==> Edge(s, kind, props, o) in after)
      && (forall x :: x in edges && x !in found ==> x in after)
      && (forall x :: x in found ==> IriOf(x.props + props) == IriOf(x.props) && x.(props := x.props + props) in after)
  {
  }

  lemma GrownCarries(now: Edge, made: Edge, e: Edge, uris: map<Uri, Uri>, kept: set<string>)
    requires Canonises(uris) && CarriesOn(now, e, uris, kept) && IriOf(now.props + made.props) == IriOf(now.props)
    requires Finds(now, made.src, made.kind, IriOf(made.props), made.tgt)
    requires MayMeet(made, e, uris) ==> Agree(made, e, uris, kept)
    ensures CarriesOn(now.(props := now.props + made.props), e, uris, kept)
  {
    ImageTwice(uris, e.src);
    ImageTwice(uris, e.tgt);
    hide SameValue, Image, URI_PROP_NAMES;
    assert MayMeet(made, e, uris);
  }

  lemma FoundCarries(now: Edge, made: Edge, e: Edge, uris: map<Uri, Uri>, kept: set<string>)
    requires Finds(now, made.src, made.kind, IriOf(made.props), made.tgt) && CarriesOn(made, e, uris, kept)
    requires IriOf(now.props + made.props) == IriOf(now.props)
    ensures CarriesOn(now.(props := now.props + made.props), e, uris, kept)
  {
    hide SameValue, Image, URI_PROP_NAMES;
  }

  lemma MoveEdgeStands(g: Store, uris: map<Uri, Uri>, edges: set<Edge>, m: Edge, e: Edge, kept: set<string>, c: Uri)
    requires Canonises(uris) && c in uris
    requires Anchored(g.nodes, uris, m) && MayMeet(m, e, uris) ==> Agree(m, e, uris, kept)
    ensures var after := MoveEdge(g, uris, edges, m);
      && (StandingOff(edges, uris, e, kept, c) ==> StandingOff(after, uris, e, kept, c))
      && (CarriesOn(m, e, uris, kept) && Anchored(g.nodes, uris, m) ==> StandingOff(after, uris, e, kept, c))
  {
    if Anchored(g.nodes, uris, m) {
      RemapCarries(m, e, uris, kept);
      var made := Edge(Image(uris, m.src), m.kind, RemapProps(m.props, uris), Image(uris, m.tgt));
      ImageIsNoKey(uris, m.src);
      ImageIsNoKey(uris, m.tgt);
      hide Merged, CarriesOn, MayMeet, Agree, StandingOff;
      MergedStands(edges, made, uris, e, kept, c);
    }
  }

  /** What a relationship is rebuilt as meets, agrees and carries on as it did. */
  lemma RemapCarries(m: Edge, e: Edge, uris: map<Uri, Uri>, kept: set<string>)
    requires Canonises(uris)
    ensures var made := Edge(Image(uris, m.src), m.kind, RemapProps(m.props, uris), Image(uris, m.tgt));
      && (MayMeet(made, e, uris) <==> MayMeet(m, e, uris)) && (Agree(made, e, uris, kept) <==> Agree(m, e, uris, kept))
      && (CarriesOn(m, e, uris, kept) ==> CarriesOn(made, e, uris, kept))
  {
    RemapKeepsIri(m.props, uris);
    ImageTwice(uris, m.src);
    ImageTwice(uris, m.tgt);
    ImageTwice(uris, e.src);
    ImageTwice(uris, e.tgt);
    var props := RemapProps(m.props, uris);
    forall p | p in m.props && p in e.props
      ensures SameValue(uris, p, props[p], e.props[p]) <==> SameValue(uris, p, m.props[p], e.props[p])
    {
      ImageTwice(uris, m.props[p]);
    }
    hide SameValue, RemapProps, URI_PROP_NAMES;
  }

  /** No relationship of the list that is rebuilt, and may meet this one, has another value. */
  ghost predicate NoRival(g: Store, uris: map<Uri, Uri>, ms: set<Edge>, e: Edge, kept: set<string>) {
    forall m :: m in ms && Anchored(g.nodes, uris, m) && MayMeet(m, e, uris) ==> Agree(m, e, uris, kept)
  }

  lemma {:induction false} RebuiltStands(g: Store, uris: map<Uri, Uri>, edges: set<Edge>, ms: seq<Edge>, e: Edge,
                                         kept: set<string>, c: Uri)
    requires Canonises(uris) && c in uris && NoRival(g, uris, SetOf(ms), e, kept)
    ensures var after := Rebuilt(g, uris, edges, ms);
      && (StandingOff(edges, uris, e, kept, c) ==> StandingOff(after, uris, e, kept, c))
      && (forall m :: m in ms && CarriesOn(m, e, uris, kept) && Anchored(g.nodes, uris, m) ==>
            StandingOff(after, uris, e, kept, c))
  {
    hide CarriesOn, MayMeet, Agree, StandingOff, Anchored, MoveEdge;
    if ms != [] {
      var front, last := ms[..|ms| - 1], ms[|ms| - 1];
      SetOfMore(ms);
      RebuiltStands(g, uris, edges, front, e, kept, c);
      MoveEdgeStands(g, uris, Rebuilt(g, uris, edges, front), last, e, kept, c);
      assert ms == front + [last];
    }
  }

  /** A migration leaves standing what stood, when it is anchored and no rival is rebuilt. */
  lemma MigratedByStands(g: Store, g': Store, uris: map<Uri, Uri>, c: Uri, e: Edge, kept: set<string>)
    requires Canonises(uris) && c in uris && MigratedBy(g, g', uris, c) && Standing(g.edges, uris, e, kept)
    requires (Touches(e, c) ==> Anchored(g.nodes, uris, e)) && NoRival(g, uris, EdgesOf(g.edges, c), e, kept)
    ensures Standing(g'.edges, uris, e, kept)
  {
    hide Lists, Rebuilt, CarriesOn, NoRival, Anchored, SetOf;
    var ins, outs :| Lists(ins, InEdges(g.edges, c)) && Lists(outs, OutEdges(g.edges, c))
      && g' == Deleted(g, uris, c, ins + outs);
    InAndOut(g.edges, c, ins, outs);
    var edges := Rebuilt(g, uris, g.edges, ins + outs);
    RebuiltStands(g, uris, g.edges, ins + outs, e, kept, c);
    var now :| now in g.edges && CarriesOn(now, e, uris, kept);
    TouchingIsOwn(g.nodes, uris, now, e, kept, c);
    if Touches(now, c) {
      InSetOf(ins + outs, now);
    }
    assert StandingOff(edges, uris, e, kept, c);
    var grown :| grown in edges && CarriesOn(grown, e, uris, kept) && !Touches(grown, c);
    assert grown in g'.edges;
  }

  lemma InSetOf(ms: seq<Edge>, e: Edge)
    ensures e in SetOf(ms) <==> e in ms
  {
  }

  /** A compact node is no image: what carries a relationship on touches it only if the relationship does. */
  lemma TouchingIsOwn(nodes: set<Uri>, uris: map<Uri, Uri>, now: Edge, e: Edge, kept: set<string>, c: Uri)
    requires Canonises(uris) && c in uris && CarriesOn(now, e, uris, kept)
    ensures (Touches(now, c) ==> Touches(e, c)) && (Anchored(nodes, uris, now) <==> Anchored(nodes, uris, e))
  {
    ImageTwice(uris, e.src);
    ImageTwice(uris, e.tgt);
    ImageIsNoKey(uris, e.src);
    ImageIsNoKey(uris, e.tgt);
  }

  lemma CleanEverywhere(edges: set<Edge>, uris: map<Uri, Uri>)
    requires CleanBeyond(edges, uris, {})
    ensures forall e :: e in edges ==> Clean(e, uris)
  {
  }

  // ---- where the values come from

  /** The relationships at compact nodes are those that were there first: none is made or merged into there. */
  ghost predicate Untouched(was: set<Edge>, uris: map<Uri, Uri>, edges: set<Edge>) {
    forall x :: x in edges && (x.src in uris || x.tgt in uris) ==> x in was
  }

  predicate SameEnds(x: Edge, e: Edge, uris: map<Uri, Uri>) {
    Image(uris, x.src) == Image(uris, e.src) && x.kind == e.kind && Image(uris, x.tgt) == Image(uris, e.tgt)
  }

  /** Some relationship between the same nodes, read as the map has them, had this value. */
  ghost predicate Had(was: set<Edge>, uris: map<Uri, Uri>, now: Edge, p: string)
    requires p in now.props
  {
    exists x :: x in was && SameEnds(x, now, uris) && p in x.props && SameValue(uris, p, now.props[p], x.props[p])
  }

  ghost predicate Sourced(was: set<Edge>, uris: map<Uri, Uri>, edges: set<Edge>) {
    forall now, p :: now in edges && p in now.props ==> Had(was, uris, now, p)
  }

  lemma MoveEdgeSources(was: set<Edge>, g: Store, uris: map<Uri, Uri>, edges: set<Edge>, m: Edge)
    requires Canonises(uris) && Untouched(was, uris, edges) && Sourced(was, uris, edges)
    requires forall p :: p in m.props ==> Had(was, uris, m, p)
    ensures Untouched(was, uris, MoveEdge(g, uris, edges, m)) && Sourced(was, uris, MoveEdge(g, uris, edges, m))
  {
    var s, o, props := Image(uris, m.src), Image(uris, m.tgt), RemapProps(m.props, uris);
    ImageIsNoKey(uris, m.src);
    ImageIsNoKey(uris, m.tgt);
    MergedMembers(edges, s, m.kind, props, o);
    hide Merged, Had, RemapProps, Canonises;
    forall y, p | y in MoveEdge(g, uris, edges, m) && p in y.props ensures Had(was, uris, y, p) {
      if y !in edges {
        if p in props && y.props[p] == props[p] {
          RemapHad(was, uris, m, y, p);
        } else {
          var x :| x in edges && SameNodes(x, y) && p in x.props && x.props[p] == y.props[p];
          HadAlike(was, uris, x, y, p);
        }
      }
    }
  }

  /** What a merge leaves was there, or stands between its two nodes, with values that were there or are written. */
  lemma MergedMembers(edges: set<Edge>, s: Uri, kind: string, props: Props, o: Uri)
    ensures forall y :: y in Merged(edges, s, kind, props, o) && y !in edges ==>
      && y.src == s && y.kind == kind && y.tgt == o
      && forall p :: p in y.props ==>
           || (p in props && y.props[p] == props[p])
           || exists x :: x in edges && SameNodes(x, y) && p in x.props && x.props[p] == y.props[p]
  {
    var found := set x | x in edges && Finds(x, s, kind, IriOf(props), o);
    forall y, p |
      y in Merged(edges, s, kind, props, o) && y !in edges && p in y.props && !(p in props && y.props[p] == props[p])
      ensures exists x :: x in edges && SameNodes(x, y) && p in x.props && x.props[p] == y.props[p]
    {
      var x :| x in found && y == x.(props := x.props + props);
      assert SameNodes(x, y);
    }
  }

  predicate SameNodes(x: Edge, y: Edge) {
    x.src == y.src && x.kind == y.kind && x.tgt == y.tgt
  }

  lemma HadAlike(was: set<Edge>, uris: map<Uri, Uri>, x: Edge, y: Edge, p: string)
    requires SameNodes(x, y) && p in x.props && p in y.props && x.props[p] == y.props[p] && Had(was, uris, x, p)
    ensures Had(was, uris, y, p)
  {
    var z :| z in was && SameEnds(z, x, uris) && p in z.props && SameValue(uris, p, x.props[p], z.props[p]);
    assert SameEnds(z, y, uris);
  }

  lemma RemapHad(was: set<Edge>, uris: map<Uri, Uri>, m: Edge, x: Edge, p: string)
    requires Canonises(uris) && p in m.props && Had(was, uris, m, p)
    requires x.src == Image(uris, m.src) && x.kind == m.kind && x.tgt == Image(uris, m.tgt)
    requires p in x.props && x.props[p] == RemapProps(m.props, uris)[p]
    ensures Had(was, uris, x, p)
  {
    var z :| z in was && SameEnds(z, m, uris) && p in z.props && SameValue(uris, p, m.props[p], z.props[p]);
    ImageTwice(uris, m.src);
    ImageTwice(uris, m.tgt);
    ImageTwice(uris, m.props[p]);
    assert SameEnds(z, x, uris) && SameValue(uris, p, x.props[p], z.props[p]);
  }

  lemma {:induction false} RebuiltSources(was: set<Edge>, g: Store, uris: map<Uri, Uri>, edges: set<Edge>,
                                          ms: seq<Edge>)
    requires Canonises(uris) && Untouched(was, uris, edges) && Sourced(was, uris, edges)
    requires forall m :: m in ms ==> m in edges
    ensures Untouched(was, uris, Rebuilt(g, uris, edges, ms)) && Sourced(was, uris, Rebuilt(g, uris, edges, ms))
  {
    if ms != [] {
      var m := ms[|ms| - 1];
      assert m in edges;
      forall p | p in m.props ensures Had(was, uris, m, p) {
      }
      hide Untouched, Sourced, Had, MoveEdge;
      RebuiltSources(was, g, uris, edges, ms[..|ms| - 1]);
      MoveEdgeSources(was, g, uris, Rebuilt(g, uris, edges, ms[..|ms| - 1]), m);
    }
  }

  lemma MigratedBySources(was: set<Edge>, g: Store, g': Store, uris: map<Uri, Uri>, c: Uri)
    requires Canonises(uris) && MigratedBy(g, g', uris, c)
    requires Untouched(was, uris, g.edges) && Sourced(was, uris, g.edges)
    ensures Untouched(was, uris, g'.edges) && Sourced(was, uris, g'.edges)
  {
    hide Rebuilt, Had;
    var ins, outs :| Lists(ins, InEdges(g.edges, c)) && Lists(outs, OutEdges(g.edges, c))
      && g' == Deleted(g, uris, c, ins + outs);
    RebuiltSources(was, g, uris, g.edges, ins + outs);
  }

  lemma OwnSources(edges: set<Edge>, uris: map<Uri, Uri>)
    ensures Untouched(edges, uris, edges) && Sourced(edges, uris, edges)
  {
    forall now, p | now in edges && p in now.props ensures Had(edges, uris, now, p) {
      assert SameEnds(now, now, uris) && SameValue(uris, p, now.props[p], now.props[p]);
    }
  }

  // ---- when a value survives

  /** The relationship, as one rebuilt leaves it: merged into when it is found. */
  function Rewritten(g: Store, uris: map<Uri, Uri>, x: Edge, m: Edge): Edge {
    if Writes(g, uris, m, x) then x.(props := x.props + RemapProps(m.props, uris)) else x
  }

  /** What `m` is rebuilt as is merged into `x`. */
  predicate Writes(g: Store, uris: map<Uri, Uri>, m: Edge, x: Edge) {
    && Anchored(g.nodes, uris, m)
    && x.src == Image(uris, m.src) && x.kind == m.kind && x.tgt == Image(uris, m.tgt)
    && ("iri" in m.props ==> "iri" in x.props && x.props["iri"] == m.props["iri"])
  }

  /** The relationship, as a list of rebuilt ones leaves it. */
  function Tracked(g: Store, uris: map<Uri, Uri>, x: Edge, ms: seq<Edge>): (y: Edge)
    ensures SameNodes(x, y) && IriOf(y.props) == IriOf(x.props)
  {
    if ms == [] then x else Rewritten(g, uris, Tracked(g, uris, x, ms[..|ms| - 1]), ms[|ms| - 1])
  }

  lemma WritesExactly(g: Store, uris: map<Uri, Uri>, m: Edge, x: Edge)
    ensures Writes(g, uris, m, x) <==>
      && Anchored(g.nodes, uris, m)
      && Finds(x, Image(uris, m.src), m.kind, IriOf(RemapProps(m.props, uris)), Image(uris, m.tgt))
  {
    RemapKeepsIri(m.props, uris);
  }

  lemma {:induction false} TrackedIsThere(g: Store, uris: map<Uri, Uri>, edges: set<Edge>, x: Edge, ms: seq<Edge>)
    requires x in edges
    ensures Tracked(g, uris, x, ms) in Rebuilt(g, uris, edges, ms)
  {
    hide RemapProps, IriOf, Merged, Writes, Finds;
    if ms != [] {
      var m := ms[|ms| - 1];
      TrackedIsThere(g, uris, edges, x, ms[..|ms| - 1]);
      WritesExactly(g, uris, m, Tracked(g, uris, x, ms[..|ms| - 1]));
      MergedGrows(Rebuilt(g, uris, edges, ms[..|ms| - 1]), Image(uris, m.src), m.kind, RemapProps(m.props, uris),
        Image(uris, m.tgt));
    }
  }

  /** Place `i` of the list is the last that is merged into the relationship and has the property. */
  predicate LastWriter(g: Store, uris: map<Uri, Uri>, x: Edge, ms: seq<Edge>, p: string, i: nat) {
    && i < |ms| && Writes(g, uris, ms[i], x) && p in ms[i].props
    && forall j :: i < j < |ms| ==> !(Writes(g, uris, ms[j], x) && p in ms[j].props)
  }

  /**
   Whatever is rebuilt, in whatever order: a relationship that is there keeps its place, type, iri and property names,
   and it keeps a value exactly when the last one merged into it that has the property has that value.
   */
  lemma {:induction false} ValueSurvivesExactly(g: Store, uris: map<Uri, Uri>, edges: set<Edge>, x: Edge, ms: seq<Edge>,
                                                p: string)
    requires x in edges && p in x.props
    ensures var y := Tracked(g, uris, x, ms);
      && y in Rebuilt(g, uris, edges, ms) && SameNodes(x, y) && x.props.Keys <= y.props.Keys
      && (y.props[p] == x.props[p] <==>
            forall i: nat :: LastWriter(g, uris, x, ms, p, i) ==> RemapProps(ms[i].props, uris)[p] == x.props[p])
  {
    TrackedIsThere(g, uris, edges, x, ms);
    hide Rebuilt, RemapProps, IriOf, Writes, LastWriter;
    if ms == [] {
      NoWriter(g, uris, x, p);
    } else {
      var front, last := ms[..|ms| - 1], ms[|ms| - 1];
      assert ms == front + [last];
      TrackedIsThere(g, uris, edges, x, front);
      ValueSurvivesExactly(g, uris, edges, x, front, p);
      SameWriters(g, uris, x, Tracked(g, uris, x, front), last);
      OneMoreWriter(g, uris, x, front, last, p);
    }
  }

  lemma NoWriter(g: Store, uris: map<Uri, Uri>, x: Edge, p: string)
    ensures forall i: nat :: !LastWriter(g, uris, x, [], p, i)
  {
  }

  lemma OneMoreWriter(g: Store, uris: map<Uri, Uri>, x: Edge, front: seq<Edge>, last: Edge, p: string)
    ensures forall i: nat :: LastWriter(g, uris, x, front + [last], p, i) <==>
      if Writes(g, uris, last, x) && p in last.props then i == |front|
      else i < |front| && LastWriter(g, uris, x, front, p, i)
  {
    hide Writes;
    var ms := front + [last];
    assert ms[|front|] == last && forall i :: 0 <= i < |front| ==> ms[i] == front[i];
  }

  lemma SameWriters(g: Store, uris: map<Uri, Uri>, x: Edge, y: Edge, m: Edge)
    requires SameNodes(x, y) && IriOf(y.props) == IriOf(x.props)
    ensures Writes(g, uris, m, x) <==> Writes(g, uris, m, y)
  {
  }

  /**
   For any compact name: it and its canonical node are each related to one node; once it is migrated its own value is
   left, and that of the canonical node's relationship is gone.
   */
  lemma MergeOverwritesValue(uris: map<Uri, Uri>, c: Uri, o: Uri, kind: string, p: string, v: string, w: string,
                             g': Store)
    requires Canonises(uris) && c in uris && o !in uris && v != w && p != IRI && p !in URI_PROP_NAMES
    ensures var nodes, own := {c, uris[c], o}, Edge(uris[c], kind, map[p := v], o);
      var g := Store(nodes, nodes, {own, Edge(c, kind, map[p := w], o)});
      && WellFormed(g)
      && (MigratedBy(g, g', uris, c) ==> g'.edges == {Edge(uris[c], kind, map[p := w], o)} && own !in g'.edges)
  {
    var nodes, own, twin := {c, uris[c], o}, Edge(uris[c], kind, map[p := v], o), Edge(c, kind, map[p := w], o);
    var g := Store(nodes, nodes, {own, twin});
    assert uris[c] in uris.Values;
    if MigratedBy(g, g', uris, c) {
      var ins, outs :| Lists(ins, InEdges(g.edges, c)) && Lists(outs, OutEdges(g.edges, c))
        && g' == Deleted(g, uris, c, ins + outs);
      assert InEdges(g.edges, c) == {} && OutEdges(g.edges, c) == {twin};
      OnlyOne(ins, outs, twin);
      TwinOverwrites(g, uris, c, o, kind, p, v, w);
    }
  }

  lemma OnlyOne(ins: seq<Edge>, outs: seq<Edge>, e: Edge)
    requires Lists(ins, {}) && Lists(outs, {e})
    ensures ins + outs == [e]
  {
    Held(ins);
    OneAtMost(outs, e);
    assert e in outs;
  }

  lemma TwinOverwrites(g: Store, uris: map<Uri, Uri>, c: Uri, o: Uri, kind: string, p: string, v: string, w: string)
    requires Canonises(uris) && c in uris && o !in uris && v != w && p != IRI && p !in URI_PROP_NAMES
    requires g.nodes == {c, uris[c], o}
    requires g.edges == {Edge(uris[c], kind, map[p := v], o), Edge(c, kind, map[p := w], o)}
    ensures Deleted(g, uris, c, [Edge(c, kind, map[p := w], o)]).edges == {Edge(uris[c], kind, map[p := w], o)}
  {
    var own, twin := Edge(uris[c], kind, map[p := v], o), Edge(c, kind, map[p := w], o);
    assert uris[c] in uris.Values && uris[c] != c;
    assert RemapProps(map[p := w], uris) == map[p := w];
    hide URI_PROP_NAMES, IRI, RemapProps;
    assert Rebuilt(g, uris, g.edges, [twin]) == MoveEdge(g, uris, g.edges, twin) by {
      assert [twin][..0] == [];
    }
    var found := set e | e in g.edges && Finds(e, uris[c], kind, None, o);
    assert found == {own};
    assert own.(props := map[p := v] + map[p := w]) == Edge(uris[c], kind, map[p := w], o);
    var after := MoveEdge(g, uris, g.edges, twin);
    assert after == {twin, Edge(uris[c], kind, map[p := w], o)};
  }
}
