/**
 The published document: the operations kept and the components they reach through `$ref`s, as in
 `_refs`, `_close_components`, `_filter_ops` and `filter_openapi`.
 */
module Components {
  import opened Options
  import opened Json

  // ---- references

  datatype Kind = Schemas | SecuritySchemes

  datatype Ref = Ref(kind: Kind, name: string)

  const REF := "$ref"
  const SCHEMA_PREFIX := "#/components/schemas/"
  const SECURITY_PREFIX := "#/components/securitySchemes/"

  /** `(.+)$`: one line of at least one character, whether or not a line feed follows it. */
  function LineOf(s: string): Option<string> {
    var line := if s != [] && s[|s| - 1] == '\n' then s[..|s| - 1] else s;
    if line == [] || '\n' in line then None else Some(line)
  }

  function ParseRef(s: string): Option<Ref> {
    if SCHEMA_PREFIX <= s then
      var name := LineOf(s[|SCHEMA_PREFIX|..]);
      if name.Some? then Some(Ref(Schemas, name.value)) else None
    else if SECURITY_PREFIX <= s then
      var name := LineOf(s[|SECURITY_PREFIX|..]);
      if name.Some? then Some(Ref(SecuritySchemes, name.value)) else None
    else None
  }

  /** `_refs`: the components a value refers to. */
  function Refs(v: Value): set<Ref>
    decreases v, 0
  {
    match v
    case Obj(fields) => set k, r | k in fields && r in FieldRefs(k, fields[k]) :: r
    case Arr(items) => set i, r | 0 <= i < |items| && r in Refs(items[i]) :: r
    case _ => {}
  }

  function FieldRefs(key: string, v: Value): set<Ref>
    decreases v, 1
  {
    if key == REF && v.Str? then
      var r := ParseRef(v.s);
      if r.Some? then {r.value} else {}
    else Refs(v)
  }

  // ---- the document

  type Item = map<string, Value>
  type Paths = map<string, Item>

  /** What the generator reads of a document; an absent section is empty. */
  datatype Doc = Doc(openapi: Value, paths: Paths, schemas: map<string, Value>, security: map<string, Value>)

  function PathRefs(paths: Paths): set<Ref> {
    set p, k, r | p in paths && k in paths[p] && r in FieldRefs(k, paths[p][k]) :: r
  }

  function SchemaRefs(schemas: map<string, Value>, r: Ref): set<Ref> {
    if r.kind.Schemas? && r.name in schemas then Refs(schemas[r.name]) else {}
  }

  // ---- what is reachable, defined apart from the worklist

  ghost predicate ReachedIn(start: set<Ref>, schemas: map<string, Value>, r: Ref, n: nat)
    decreases n
  {
    if n == 0 then r in start
    else exists q :: ReachedIn(start, schemas, q, n - 1) && r in SchemaRefs(schemas, q)
  }

  function AllRefs(start: set<Ref>, schemas: map<string, Value>): set<Ref> {
    start + set s, r | s in schemas && r in Refs(schemas[s]) :: r
  }

  ghost predicate IsReached(start: set<Ref>, schemas: map<string, Value>, r: Ref) {
    exists n: nat :: ReachedIn(start, schemas, r, n)
  }

  lemma ReachedIsSomewhere(start: set<Ref>, schemas: map<string, Value>, r: Ref)
    requires IsReached(start, schemas, r)
    ensures r in AllRefs(start, schemas)
  {
    var n: nat :| ReachedIn(start, schemas, r, n);
    if n > 0 {
      var q :| ReachedIn(start, schemas, q, n - 1) && r in SchemaRefs(schemas, q);
    }
  }

  /** The references reached from `start` through the schemas. */
  ghost function Reached(start: set<Ref>, schemas: map<string, Value>): (s: set<Ref>)
    ensures forall r :: r in s <==> IsReached(start, schemas, r)
  {
    var s := set r | r in AllRefs(start, schemas) && IsReached(start, schemas, r);
    assert forall r :: r in s <==> IsReached(start, schemas, r) by {
      forall r | IsReached(start, schemas, r) ensures r in s {
        ReachedIsSomewhere(start, schemas, r);
      }
    }
    s
  }

  ghost predicate ClosedUnder(s: set<Ref>, schemas: map<string, Value>) {
    forall q :: q in s ==> SchemaRefs(schemas, q) <= s
  }

  /** It is the least set that holds the start and is closed under references. */
  lemma ReachedIsLeast(start: set<Ref>, schemas: map<string, Value>, s: set<Ref>)
    ensures start <= Reached(start, schemas) && ClosedUnder(Reached(start, schemas), schemas)
    ensures start <= s && ClosedUnder(s, schemas) ==> Reached(start, schemas) <= s
  {
    hide AllRefs;
    forall r | r in start ensures r in Reached(start, schemas) {
      assert ReachedIn(start, schemas, r, 0);
    }
    forall q, r | q in Reached(start, schemas) && r in SchemaRefs(schemas, q) ensures r in Reached(start, schemas) {
      var n: nat :| ReachedIn(start, schemas, q, n);
      assert ReachedIn(start, schemas, r, n + 1);
    }
    if start <= s && ClosedUnder(s, schemas) {
      forall r | r in Reached(start, schemas) ensures r in s {
        var n: nat :| ReachedIn(start, schemas, r, n);
        ReachedStays(start, schemas, s, r, n);
      }
    }
  }

  lemma {:induction false} ReachedStays(start: set<Ref>, schemas: map<string, Value>, s: set<Ref>, r: Ref, n: nat)
    requires start <= s && ClosedUnder(s, schemas) && ReachedIn(start, schemas, r, n)
    ensures r in s
    decreases n
  {
    if n > 0 {
      var q :| ReachedIn(start, schemas, q, n - 1) && r in SchemaRefs(schemas, q);
      ReachedStays(start, schemas, s, q, n - 1);
    }
  }

  // ---- _close_components

  function SecurityNames(paths: Paths): set<string> {
    set p, k, n | p in paths && k in paths[p] && n in OpSecurity(paths[p][k]) :: n
  }

  const SECURITY := "security"

  /** The schemes an operation requires: the keys of each requirement in its list. */
  function OpSecurity(op: Value): set<string> {
    if op.Obj? && SECURITY in op.fields && op.fields[SECURITY].Arr? then
      var reqs := op.fields[SECURITY].items;
      set i, n | 0 <= i < |reqs| && reqs[i].Obj? && n in reqs[i].fields :: n
    else {}
  }

  function KeptSchemas(seen: set<Ref>, schemas: map<string, Value>): map<string, Value> {
    map n | n in schemas && Ref(Schemas, n) in seen :: schemas[n]
  }

  function KeptSecurity(seen: set<Ref>, paths: Paths, security: map<string, Value>): map<string, Value> {
    map n | n in security && (n in SecurityNames(paths) || Ref(SecuritySchemes, n) in seen) :: security[n]
  }

  /** The worklist, popping in any order: it ends with exactly the references reached. */
  method CloseComponents(paths: Paths, schemas: map<string, Value>, security: map<string, Value>)
    returns (keptSchemas: map<string, Value>, keptSecurity: map<string, Value>)
    ensures keptSchemas == KeptSchemas(Reached(PathRefs(paths), schemas), schemas)
    ensures keptSecurity == KeptSecurity(Reached(PathRefs(paths), schemas), paths, security)
  {
    var start := PathRefs(paths);
    ghost var all := Reached(start, schemas);
    var seen: set<Ref> := {};
    var todo := start;
    ReachedIsLeast(start, schemas, {});
    while todo != {}
      invariant start <= seen + todo <= all
      invariant forall q :: q in seen ==> SchemaRefs(schemas, q) <= seen + todo
      decreases all - seen, todo
    {
      var r :| r in todo;
      todo := todo - {r};
      if r !in seen {
        seen := seen + {r};
        var more := SchemaRefs(schemas, r);
        assert more <= all;
        todo := todo + (more - seen);
      }
    }
    ReachedIsLeast(start, schemas, seen);
    assert seen == all;
    keptSchemas := KeptSchemas(seen, schemas);
    keptSecurity := KeptSecurity(seen, paths, security);
  }

  // ---- _filter_ops and filter_openapi

  type Keep = map<string, Value> -> bool

  function KeptOps(item: Item, keep: Keep): Item {
    map k | k in item && item[k].Obj? && keep(item[k].fields) :: item[k]
  }

  function KeptPaths(paths: Paths, keep: Keep): Paths {
    map p | p in paths && KeptOps(paths[p], keep) != map[] :: KeptOps(paths[p], keep)
  }

  ghost function Filtered(doc: Doc, keep: Keep): Doc {
    var paths := KeptPaths(doc.paths, keep);
    var seen := Reached(PathRefs(paths), doc.schemas);
    Doc(doc.openapi, paths, KeptSchemas(seen, doc.schemas), KeptSecurity(seen, paths, doc.security))
  }

  method FilterOps(doc: Doc, keep: Keep) returns (out: Doc)
    ensures out == Filtered(doc, keep)
  {
    var paths := KeptPaths(doc.paths, keep);
    var schemas, security := CloseComponents(paths, doc.schemas, doc.security);
    out := Doc(doc.openapi, paths, schemas, security);
  }

  const TAGS := "tags"
  const STABILITY := "x-stability"
  const PREVIEW := "preview"

  /** `tag in (op.get("tags") or [])`. */
  function Tagged(tag: string): Keep {
    (op: map<string, Value>) => TAGS in op && op[TAGS].Arr? && Str(tag) in op[TAGS].items
  }

  /** `op.get("x-stability") != "preview"`. */
  predicate Stable(op: map<string, Value>) {
    !(STABILITY in op && op[STABILITY] == Str(PREVIEW))
  }

  // ---- filtering twice

  function Both(one: Keep, two: Keep): Keep {
    (op: map<string, Value>) => one(op) && two(op)
  }

  lemma KeptOpsCompose(item: Item, one: Keep, two: Keep)
    ensures KeptOps(KeptOps(item, one), two) == KeptOps(item, Both(one, two))
    ensures KeptOps(item, one) == map[] ==> KeptOps(item, Both(one, two)) == map[]
  {
    if KeptOps(item, one) == map[] {
      assert KeptOps(map[], two) == map[];
    }
  }

  lemma KeptPathsCompose(paths: Paths, one: Keep, two: Keep)
    ensures KeptPaths(KeptPaths(paths, one), two) == KeptPaths(paths, Both(one, two))
  {
    hide KeptOps;
    forall p | p in paths
      ensures KeptOps(KeptOps(paths[p], one), two) == KeptOps(paths[p], Both(one, two))
      ensures KeptOps(paths[p], one) == map[] ==> KeptOps(paths[p], Both(one, two)) == map[]
    {
      KeptOpsCompose(paths[p], one, two);
    }
  }

  /** Dropping schemas out of reach leaves the same references reached. */
  lemma ReachedAgain(start: set<Ref>, schemas: map<string, Value>, all: set<Ref>)
    requires start <= all && ClosedUnder(all, schemas)
    ensures Reached(start, KeptSchemas(all, schemas)) == Reached(start, schemas)
    ensures Reached(start, schemas) <= all
  {
    var kept := KeptSchemas(all, schemas);
    ReachedIsLeast(start, schemas, all);
    ReachedIsLeast(start, schemas, Reached(start, kept));
    ReachedIsLeast(start, kept, Reached(start, schemas));
    ReachedIsLeast(start, kept, all);
    hide Reached;
    forall q | q in all ensures SchemaRefs(kept, q) == SchemaRefs(schemas, q) {
    }
  }

  lemma KeptPathNames(paths: Paths, keep: Keep)
    ensures PathRefs(KeptPaths(paths, keep)) <= PathRefs(paths)
    ensures SecurityNames(KeptPaths(paths, keep)) <= SecurityNames(paths)
  {
    hide FieldRefs, OpSecurity;
  }

  /** Filtering by one choice of operations and then by another is filtering by both at once. */
  lemma FiltersCompose(doc: Doc, one: Keep, two: Keep)
    ensures Filtered(Filtered(doc, one), two) == Filtered(doc, Both(one, two))
  {
    var once := KeptPaths(doc.paths, one);
    var paths := KeptPaths(doc.paths, Both(one, two));
    KeptPathsCompose(doc.paths, one, two);
    KeptPathNames(once, two);
    hide PathRefs, SecurityNames, KeptOps, Reached, KeptPaths;
    var all := Reached(PathRefs(once), doc.schemas);
    ReachedIsLeast(PathRefs(once), doc.schemas, {});
    ReachedAgain(PathRefs(paths), doc.schemas, all);
    var seen := Reached(PathRefs(paths), doc.schemas);
    hide ClosedUnder;
    assert KeptSchemas(seen, KeptSchemas(all, doc.schemas)) == KeptSchemas(seen, doc.schemas);
    assert KeptSecurity(seen, paths, KeptSecurity(all, once, doc.security)) == KeptSecurity(seen, paths, doc.security);
  }

  lemma FilteringTwiceIsOnce(doc: Doc, keep: Keep)
    ensures Filtered(Filtered(doc, keep), keep) == Filtered(doc, keep)
  {
    FiltersCompose(doc, keep, keep);
    TwiceKeptPaths(doc.paths, keep);
    hide KeptPaths, Reached, PathRefs, SecurityNames, Both;
  }

  lemma TwiceKeptPaths(paths: Paths, keep: Keep)
    ensures KeptPaths(paths, Both(keep, keep)) == KeptPaths(paths, keep)
  {
    forall p | p in paths ensures KeptOps(paths[p], Both(keep, keep)) == KeptOps(paths[p], keep) {
    }
    hide KeptOps;
  }

  /** The shape of what is published under a tag is read off the operations with the tag that are stable. */
  lemma PublishedThenStable(doc: Doc, tag: string)
    ensures Filtered(Filtered(doc, Tagged(tag)), Stable) == Filtered(doc, Both(Tagged(tag), Stable))
  {
    FiltersCompose(doc, Tagged(tag), Stable);
  }

  // ---- what a document outside the kept part may hold

  /** The two documents agree on what `keep` keeps: the operations, and the components they reach. */
  ghost predicate AgreeOn(a: Doc, b: Doc, keep: Keep) {
    var paths := KeptPaths(a.paths, keep);
    var seen := Reached(PathRefs(paths), a.schemas);
    && a.openapi == b.openapi && KeptPaths(b.paths, keep) == paths
    && KeptSchemas(seen, a.schemas) == KeptSchemas(seen, b.schemas)
    && KeptSecurity(seen, paths, a.security) == KeptSecurity(seen, paths, b.security)
  }

  /** Operations that are dropped, and components only they reach, leave no trace. */
  lemma OnlyTheKeptCounts(a: Doc, b: Doc, keep: Keep)
    requires AgreeOn(a, b, keep)
    ensures Filtered(a, keep) == Filtered(b, keep)
  {
    var start := PathRefs(KeptPaths(a.paths, keep));
    var seen := Reached(start, a.schemas);
    forall q | q in seen ensures SchemaRefs(a.schemas, q) == SchemaRefs(b.schemas, q) {
      if q.kind.Schemas? {
        assert q.name in a.schemas <==> q.name in KeptSchemas(seen, a.schemas);
        assert q.name in b.schemas <==> q.name in KeptSchemas(seen, b.schemas);
      }
    }
    ReachedIsLeast(start, a.schemas, Reached(start, b.schemas));
    ReachedIsLeast(start, b.schemas, seen);
    assert Reached(start, b.schemas) == seen by {
      forall q | q in Reached(start, b.schemas) ensures SchemaRefs(a.schemas, q) <= Reached(start, b.schemas) {
        assert q in seen;
      }
    }
  }

  // ---- dangling references

  ghost predicate Resolves(doc: Doc, r: Ref) {
    if r.kind.Schemas? then r.name in doc.schemas else r.name in doc.security
  }

  /** Every component reference in the document names a component it has. */
  ghost predicate NoDangling(doc: Doc) {
    && (forall r :: r in PathRefs(doc.paths) ==> Resolves(doc, r))
    && (forall n, r :: n in doc.schemas && r in Refs(doc.schemas[n]) ==> Resolves(doc, r))
    && (forall n, r :: n in doc.security && r in Refs(doc.security[n]) ==> Resolves(doc, r))
  }

  /** The scheme is one that a kept operation requires, or that the kept part refers to. */
  ghost predicate SchemeKept(doc: Doc, keep: Keep, n: string) {
    var paths := KeptPaths(doc.paths, keep);
    n in SecurityNames(paths) || Ref(SecuritySchemes, n) in Reached(PathRefs(paths), doc.schemas)
  }

  /**
   What a kept scheme refers to is required by a kept operation or reached from one: being referred to by a
   scheme keeps nothing.
   */
  ghost predicate SchemesReferWithin(doc: Doc, keep: Keep) {
    var paths := KeptPaths(doc.paths, keep);
    forall n, r :: n in doc.security && SchemeKept(doc, keep, n) && r in Refs(doc.security[n]) ==>
      r in Reached(PathRefs(paths), doc.schemas) || (r.kind.SecuritySchemes? && r.name in SecurityNames(paths))
  }

  /** What is reached from the kept operations, and what the kept schemes refer to, the document has. */
  ghost predicate KeptResolves(doc: Doc, keep: Keep) {
    && (forall r :: r in Reached(PathRefs(KeptPaths(doc.paths, keep)), doc.schemas) ==> Resolves(doc, r))
    && (forall n, r :: n in doc.security && SchemeKept(doc, keep, n) && r in Refs(doc.security[n]) ==> Resolves(doc, r))
  }

  /** A reference resolves in the filtered document when the document has it and filtering keeps it. */
  lemma ResolvesExactly(doc: Doc, keep: Keep, r: Ref)
    ensures Resolves(Filtered(doc, keep), r) <==>
      Resolves(doc, r)
      && (r in Reached(PathRefs(KeptPaths(doc.paths, keep)), doc.schemas)
          || (r.kind.SecuritySchemes? && r.name in SecurityNames(KeptPaths(doc.paths, keep))))
  {
    hide Reached, PathRefs, SecurityNames, KeptPaths;
  }

  lemma ReachedRefs(doc: Doc, start: set<Ref>, n: string, r: Ref)
    requires n in doc.schemas && Ref(Schemas, n) in Reached(start, doc.schemas) && r in Refs(doc.schemas[n])
    ensures r in Reached(start, doc.schemas)
  {
    ReachedIsLeast(start, doc.schemas, {});
    hide Reached;
    assert r in SchemaRefs(doc.schemas, Ref(Schemas, n));
  }

  /** What is reached is held by a kept operation or a kept schema. */
  lemma ReachedIsHeld(doc: Doc, keep: Keep, r: Ref)
    requires r in Reached(PathRefs(KeptPaths(doc.paths, keep)), doc.schemas)
    ensures var out := Filtered(doc, keep);
      r in PathRefs(out.paths) || exists n :: n in out.schemas && r in Refs(out.schemas[n])
  {
    var start := PathRefs(KeptPaths(doc.paths, keep));
    var n: nat :| ReachedIn(start, doc.schemas, r, n);
    if n > 0 {
      var q :| ReachedIn(start, doc.schemas, q, n - 1) && r in SchemaRefs(doc.schemas, q);
      hide PathRefs, KeptPaths;
      assert q in Reached(start, doc.schemas);
      assert q.name in Filtered(doc, keep).schemas;
    }
  }

  /** Any document filters to one with no dangling reference exactly under both conditions. */
  lemma FilteredDanglesExactly(doc: Doc, keep: Keep)
    ensures NoDangling(Filtered(doc, keep)) <==> KeptResolves(doc, keep) && SchemesReferWithin(doc, keep)
  {
    var out := Filtered(doc, keep);
    var start := PathRefs(KeptPaths(doc.paths, keep));
    forall r ensures Resolves(out, r) <==>
      Resolves(doc, r) && (r in Reached(start, doc.schemas)
                           || (r.kind.SecuritySchemes? && r.name in SecurityNames(KeptPaths(doc.paths, keep))))
    {
      ResolvesExactly(doc, keep, r);
    }
    assert start <= Reached(start, doc.schemas) by {
      ReachedIsLeast(start, doc.schemas, {});
    }
    hide Reached, PathRefs, SecurityNames, KeptPaths, Resolves, Refs;
    forall n | n in doc.security ensures n in out.security <==> SchemeKept(doc, keep, n) {
    }
    if NoDangling(out) {
      forall r | r in Reached(start, doc.schemas) ensures Resolves(doc, r) {
        ReachedIsHeld(doc, keep, r);
        assert Resolves(out, r);
      }
    }
    if KeptResolves(doc, keep) && SchemesReferWithin(doc, keep) {
      forall n, r | n in out.schemas && r in Refs(out.schemas[n]) ensures Resolves(out, r) {
        ReachedRefs(doc, start, n, r);
      }
    }
  }

  /**
   A document with no dangling reference filters to one with none exactly when its kept security schemes
   refer only to what the kept operations require or reach.
   */
  lemma FilteringDangles(doc: Doc, keep: Keep)
    requires NoDangling(doc)
    ensures NoDangling(Filtered(doc, keep)) <==> SchemesReferWithin(doc, keep)
  {
    hide Filtered, SchemesReferWithin, SchemeKept;
    FilteredDanglesExactly(doc, keep);
    var start := PathRefs(KeptPaths(doc.paths, keep));
    forall r | r in Reached(start, doc.schemas) ensures Resolves(doc, r) {
      KeptPathNames(doc.paths, keep);
      ReachedIsSomewhere(start, doc.schemas, r);
    }
  }

  // ---- a security scheme given by reference

  /** One tagged operation requires the scheme `mine`, which is a reference to the scheme `base`. */
  function ByReference(mine: string, base: string, ref: string, tag: string): Doc {
    Doc(Null, map["/" := map["get" := Requiring(mine, tag)]], map[],
        map[mine := Obj(map[REF := Str(ref)]), base := Obj(map[])])
  }

  function Requiring(scheme: string, tag: string): Value {
    Obj(map[TAGS := Arr([Str(tag)]), SECURITY := Arr([Obj(map[scheme := Arr([])])])])
  }

  lemma RequiringRefs(scheme: string, tag: string)
    ensures Refs(Requiring(scheme, tag)) == {} && OpSecurity(Requiring(scheme, tag)) == {scheme}
  {
    assert TAGS[0] == 't' && SECURITY[0] == 's';
    hide REF, TAGS, SECURITY;
    var none := Obj(map[scheme := Arr([])]);
    assert Refs(Str(tag)) == {} && Refs(Arr([])) == {};
    assert FieldRefs(scheme, Arr([])) == {};
    assert Refs(none) == {};
    assert Refs(Arr([none])) == {} && Refs(Arr([Str(tag)])) == {};
    assert FieldRefs(SECURITY, Arr([none])) == {} && FieldRefs(TAGS, Arr([Str(tag)])) == {};
    var reqs := Requiring(scheme, tag).fields[SECURITY].items;
    assert reqs[0] == none && scheme in none.fields;
  }

  lemma ByReferenceRefs(mine: string, base: string, ref: string, tag: string)
    requires mine != base && ParseRef(ref) == Some(Ref(SecuritySchemes, base))
    ensures var doc := ByReference(mine, base, ref, tag);
      && PathRefs(doc.paths) == {} && SecurityNames(doc.paths) == {mine}
      && Refs(doc.security[mine]) == {Ref(SecuritySchemes, base)} && Refs(doc.security[base]) == {}
  {
    hide ParseRef;
    var doc := ByReference(mine, base, ref, tag);
    RequiringRefs(mine, tag);
    hide Requiring;
    var op := Requiring(mine, tag);
    assert FieldRefs("get", op) == {};
    assert doc.paths["/"]["get"] == op && mine in OpSecurity(op);
    assert FieldRefs(REF, doc.security[mine].fields[REF]) == {Ref(SecuritySchemes, base)};
  }

  /** Wherever the operation is kept, its scheme is kept and the one it refers to is not: what is left dangles. */
  lemma SchemeByReferenceDangles(mine: string, base: string, ref: string, tag: string, keep: Keep)
    requires mine != base && ParseRef(ref) == Some(Ref(SecuritySchemes, base))
    requires keep(Requiring(mine, tag).fields)
    ensures NoDangling(ByReference(mine, base, ref, tag))
    ensures !NoDangling(Filtered(ByReference(mine, base, ref, tag), keep))
  {
    hide Refs, SecurityNames, PathRefs, ParseRef;
    var doc := ByReference(mine, base, ref, tag);
    ByReferenceRefs(mine, base, ref, tag);
    hide Requiring;
    var item := doc.paths["/"];
    assert KeptOps(item, keep) == item && item != map[] by {
      assert "get" in item;
    }
    assert KeptPaths(doc.paths, keep) == doc.paths;
    ReachedIsLeast({}, doc.schemas, {});
    var out := Filtered(doc, keep);
    assert mine in out.security && base !in out.security;
    assert !Resolves(out, Ref(SecuritySchemes, base));
  }

  /** Such a document, with no dangling reference, is published under its tag, and its shape read, with one. */
  lemma PublishedDangles(mine: string, tag: string)
    requires mine != "base"
    ensures var doc := ByReference(mine, "base", SECURITY_PREFIX + "base", tag);
      NoDangling(doc) && !NoDangling(Filtered(doc, Tagged(tag))) && !NoDangling(Filtered(doc, Stable))
  {
    var ref := SECURITY_PREFIX + "base";
    BaseRef();
    RequiringIsKept(mine, tag);
    hide ParseRef, Requiring, Tagged, Stable, NoDangling, ByReference;
    SchemeByReferenceDangles(mine, "base", ref, tag, Tagged(tag));
    SchemeByReferenceDangles(mine, "base", ref, tag, Stable);
  }

  lemma RequiringIsKept(scheme: string, tag: string)
    ensures Tagged(tag)(Requiring(scheme, tag).fields) && Stable(Requiring(scheme, tag).fields)
  {
    assert TAGS[0] == 't' && SECURITY[0] == 's' && STABILITY[0] == 'x';
    hide TAGS, SECURITY, STABILITY;
    assert Str(tag) in [Str(tag)];
  }

  lemma BaseRef()
    ensures ParseRef(SECURITY_PREFIX + "base") == Some(Ref(SecuritySchemes, "base"))
  {
    var ref := SECURITY_PREFIX + "base";
    assert ref[..|SECURITY_PREFIX|] == SECURITY_PREFIX;
    assert ref[|SECURITY_PREFIX|..] == "base";
    assert SCHEMA_PREFIX[14] == 'c' && SECURITY_PREFIX[14] == 'e';
  }
}
