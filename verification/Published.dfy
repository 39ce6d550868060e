/**
 What filtering a document keeps, said of the document's own places: which text is a reference, what the kept
 operations refer to and require, and what of the document is published.
 */
module Published {
  import opened Options
  import opened Json
  import opened Components

  // ---- references, by where they stand

  /** The text names the component: the pointer to it, whether or not a line feed follows. */
  ghost predicate Spells(s: string, r: Ref) {
    && r.name != "" && '\n' !in r.name
    && (s == Pointer(r) || s == Pointer(r) + "\n")
  }

  function Pointer(r: Ref): string {
    match r.kind
    case Schemas => "#/components/schemas/" + r.name
    case SecuritySchemes => "#/components/securitySchemes/" + r.name
  }

  lemma LineExactly(s: string, name: string)
    ensures LineOf(s) == Some(name) <==> name != "" && '\n' !in name && (s == name || s == name + "\n")
  {
    if s != [] && s[|s| - 1] == '\n' {
      assert s == s[..|s| - 1] + "\n";
      assert '\n' in s;
    }
    if s == name + "\n" {
      assert s[..|s| - 1] == name;
    }
    if s == name && s != [] {
      assert s[|s| - 1] in s;
    }
  }

  lemma AfterPrefix(prefix: string, s: string, name: string)
    ensures prefix <= s && (s[|prefix|..] == name || s[|prefix|..] == name + "\n") <==>
      s == prefix + name || s == prefix + name + "\n"
  {
    assert (prefix + name)[|prefix|..] == name;
    assert prefix + name + "\n" == prefix + (name + "\n");
    assert (prefix + (name + "\n"))[|prefix|..] == name + "\n";
    if prefix <= s {
      assert s == prefix + s[|prefix|..];
    }
  }

  lemma PrefixesApart(s: string)
    ensures !(SCHEMA_PREFIX <= s && SECURITY_PREFIX <= s)
  {
    assert SCHEMA_PREFIX[14] == 'c' && SECURITY_PREFIX[14] == 'e';
  }

  lemma ParsedExactly(s: string, r: Ref)
    ensures ParseRef(s) == Some(r) <==> Spells(s, r)
  {
    PrefixesApart(s);
    AfterPrefix(SCHEMA_PREFIX, s, r.name);
    AfterPrefix(SECURITY_PREFIX, s, r.name);
    if SCHEMA_PREFIX <= s {
      LineExactly(s[|SCHEMA_PREFIX|..], r.name);
    }
    if SECURITY_PREFIX <= s {
      LineExactly(s[|SECURITY_PREFIX|..], r.name);
    }
    PointerIs(r);
    hide SCHEMA_PREFIX, SECURITY_PREFIX, LineOf, Pointer;
  }

  lemma PointerIs(r: Ref)
    ensures Pointer(r) == (if r.kind.Schemas? then SCHEMA_PREFIX else SECURITY_PREFIX) + r.name
  {
  }

  /** Somewhere in the value stands a `$ref` whose text names the component. */
  ghost predicate RefersTo(v: Value, r: Ref) {
    exists path: seq<Into>, s: string :: RefAt(v, path, s, r)
  }

  ghost predicate RefAt(v: Value, path: seq<Into>, s: string, r: Ref) {
    path != [] && path[|path| - 1] == Key("$ref") && At(v, path) == Some(Str(s)) && Spells(s, r)
  }

  /** A reference in an object stands under `$ref`, or somewhere in what one of its keys holds. */
  ghost predicate RefersUnder(k: string, v: Value, r: Ref) {
    (k == "$ref" && v.Str? && Spells(v.s, r)) || RefersTo(v, r)
  }

  lemma RefersInObject(fields: map<string, Value>, r: Ref)
    ensures RefersTo(Obj(fields), r) <==> exists k :: k in fields && RefersUnder(k, fields[k], r)
  {
    hide Spells;
    var v := Obj(fields);
    if RefersTo(v, r) {
      var path: seq<Into>, s: string :| RefAt(v, path, s, r);
      assert path[0].Key?;
      var k := path[0].k;
      if |path| > 1 {
        assert RefAt(fields[k], path[1..], s, r);
      }
      assert RefersUnder(k, fields[k], r);
    }
    if k :| k in fields && RefersUnder(k, fields[k], r) {
      if RefersTo(fields[k], r) {
        var path: seq<Into>, s: string :| RefAt(fields[k], path, s, r);
        assert ([Key(k)] + path)[1..] == path;
        assert RefAt(v, [Key(k)] + path, s, r);
      } else {
        assert At(v, [Key("$ref")]) == At(fields[k], []);
        assert RefAt(v, [Key("$ref")], fields[k].s, r);
      }
    }
  }

  lemma RefersInArray(items: seq<Value>, r: Ref)
    ensures RefersTo(Arr(items), r) <==> exists i :: 0 <= i < |items| && RefersTo(items[i], r)
  {
    hide Spells;
    var v := Arr(items);
    if RefersTo(v, r) {
      var path: seq<Into>, s: string :| RefAt(v, path, s, r);
      assert path[0].Place? && |path| > 1;
      assert RefAt(items[path[0].i], path[1..], s, r);
    }
    if i :| 0 <= i < |items| && RefersTo(items[i], r) {
      var path: seq<Into>, s: string :| RefAt(items[i], path, s, r);
      assert ([Place(i)] + path)[1..] == path;
      assert RefAt(v, [Place(i)] + path, s, r);
    }
  }

  lemma RefersNowhere(v: Value, r: Ref)
    requires !v.Obj? && !v.Arr?
    ensures !RefersTo(v, r)
  {
    hide Spells;
  }

  lemma FieldRefsExactly(k: string, v: Value, r: Ref)
    requires r in Refs(v) <==> RefersTo(v, r)
    ensures r in FieldRefs(k, v) <==> RefersUnder(k, v, r)
  {
    hide ParseRef, Spells, RefersTo;
    if v.Str? {
      ParsedExactly(v.s, r);
    }
  }

  /** The references read off a value are those that stand somewhere in it. */
  lemma {:induction false} RefsExactly(v: Value, r: Ref)
    ensures r in Refs(v) <==> RefersTo(v, r)
    decreases v
  {
    hide ParseRef, RefersTo, RefersUnder, FieldRefs;
    match v
    case Obj(fields) =>
      RefersInObject(fields, r);
      forall k | k in fields ensures r in FieldRefs(k, fields[k]) <==> RefersUnder(k, fields[k], r) {
        RefsExactly(fields[k], r);
        FieldRefsExactly(k, fields[k], r);
      }
    case Arr(items) =>
      RefersInArray(items, r);
      forall i | 0 <= i < |items| ensures r in Refs(items[i]) <==> RefersTo(items[i], r) {
        RefsExactly(items[i], r);
      }
    case _ =>
      RefersNowhere(v, r);
  }

  // ---- what is published of a document

  /** The operation at this place is one that is kept. */
  ghost predicate KeptAt(doc: Doc, keep: Keep, p: string, k: string) {
    p in doc.paths && k in doc.paths[p] && doc.paths[p][k].Obj? && keep(doc.paths[p][k].fields)
  }

  /** A kept operation refers to the component, or a schema that is followed before it does. */
  ghost predicate FollowedIn(doc: Doc, keep: Keep, r: Ref, n: nat)
    decreases n
  {
    if n == 0 then exists p, k :: KeptAt(doc, keep, p, k) && RefersTo(doc.paths[p][k], r)
    else exists s :: FollowedIn(doc, keep, Ref(Schemas, s), n - 1) && s in doc.schemas && RefersTo(doc.schemas[s], r)
  }

  ghost predicate Follows(doc: Doc, keep: Keep, r: Ref) {
    exists n: nat :: FollowedIn(doc, keep, r, n)
  }

  /** The operation lists a requirement with a key of this name. */
  ghost predicate Lists(op: Value, scheme: string) {
    && op.Obj? && "security" in op.fields && op.fields["security"].Arr?
    && exists req :: req in op.fields["security"].items && req.Obj? && scheme in req.fields
  }

  ghost predicate Requires(doc: Doc, keep: Keep, scheme: string) {
    exists p, k :: KeptAt(doc, keep, p, k) && Lists(doc.paths[p][k], scheme)
  }

  ghost predicate SchemaOut(doc: Doc, keep: Keep, n: string) {
    n in doc.schemas && Follows(doc, keep, Ref(Schemas, n))
  }

  ghost predicate SchemeOut(doc: Doc, keep: Keep, n: string) {
    n in doc.security && (Requires(doc, keep, n) || Follows(doc, keep, Ref(SecuritySchemes, n)))
  }

  lemma KeptPathsExactly(doc: Doc, keep: Keep)
    ensures var paths := KeptPaths(doc.paths, keep);
      && (forall p, k :: p in paths && k in paths[p] <==> KeptAt(doc, keep, p, k))
      && (forall p, k :: KeptAt(doc, keep, p, k) ==> paths[p][k] == doc.paths[p][k])
      && (forall p :: p in paths ==> exists k :: k in paths[p])
  {
    var paths := KeptPaths(doc.paths, keep);
    forall p, k | KeptAt(doc, keep, p, k) ensures p in paths && k in paths[p] && paths[p][k] == doc.paths[p][k] {
      assert k in KeptOps(doc.paths[p], keep);
    }
    forall p | p in paths ensures exists k :: k in paths[p] {
      SomeKey(paths[p]);
    }
  }

  lemma SomeKey(m: Item)
    requires m != map[]
    ensures exists k :: k in m
  {
    assert m == map[] <==> m.Keys == {};
    var k :| k in m.Keys;
  }

  lemma PathRefsExactly(doc: Doc, keep: Keep, r: Ref)
    ensures r in PathRefs(KeptPaths(doc.paths, keep)) <==>
      exists p, k :: KeptAt(doc, keep, p, k) && RefersTo(doc.paths[p][k], r)
  {
    KeptPathsExactly(doc, keep);
    hide KeptPaths, RefersTo, Refs, FieldRefs;
    var paths := KeptPaths(doc.paths, keep);
    forall p, k | KeptAt(doc, keep, p, k)
      ensures r in FieldRefs(k, paths[p][k]) <==> RefersTo(doc.paths[p][k], r)
    {
      OpRefs(k, doc.paths[p][k]);
      RefsExactly(doc.paths[p][k], r);
    }
  }

  lemma OpRefs(k: string, op: Value)
    requires op.Obj?
    ensures FieldRefs(k, op) == Refs(op)
  {
  }

  lemma {:induction false} FollowedExactly(doc: Doc, keep: Keep, r: Ref, n: nat)
    ensures ReachedIn(PathRefs(KeptPaths(doc.paths, keep)), doc.schemas, r, n) <==> FollowedIn(doc, keep, r, n)
    decreases n
  {
    hide KeptPaths, PathRefs, RefersTo, Refs, KeptAt;
    var start := PathRefs(KeptPaths(doc.paths, keep));
    if n == 0 {
      PathRefsExactly(doc, keep, r);
    } else {
      var m: nat := n - 1;
      forall q ensures ReachedIn(start, doc.schemas, q, m) <==> FollowedIn(doc, keep, q, m) {
        FollowedExactly(doc, keep, q, m);
      }
      forall s | s in doc.schemas ensures r in Refs(doc.schemas[s]) <==> RefersTo(doc.schemas[s], r) {
        RefsExactly(doc.schemas[s], r);
      }
      hide FollowedIn, ReachedIn;
      NextExactly(doc, keep, start, r, m);
      FollowedOnce(doc, keep, r, n);
      ReachedOnce(start, doc.schemas, r, n);
    }
  }

  lemma FollowedOnce(doc: Doc, keep: Keep, r: Ref, n: nat)
    requires n > 0
    ensures FollowedIn(doc, keep, r, n) <==>
      exists s :: FollowedIn(doc, keep, Ref(Schemas, s), n - 1) && s in doc.schemas && RefersTo(doc.schemas[s], r)
  {
  }

  lemma ReachedOnce(start: set<Ref>, schemas: map<string, Value>, r: Ref, n: nat)
    requires n > 0
    ensures ReachedIn(start, schemas, r, n) <==>
      exists q :: ReachedIn(start, schemas, q, n - 1) && r in SchemaRefs(schemas, q)
  {
  }

  lemma NextExactly(doc: Doc, keep: Keep, start: set<Ref>, r: Ref, n: nat)
    requires forall q :: ReachedIn(start, doc.schemas, q, n) <==> FollowedIn(doc, keep, q, n)
    requires forall s :: s in doc.schemas ==> (r in Refs(doc.schemas[s]) <==> RefersTo(doc.schemas[s], r))
    ensures (exists q :: ReachedIn(start, doc.schemas, q, n) && r in SchemaRefs(doc.schemas, q)) <==>
      exists s :: FollowedIn(doc, keep, Ref(Schemas, s), n) && s in doc.schemas && RefersTo(doc.schemas[s], r)
  {
    hide FollowedIn, ReachedIn, RefersTo, Refs;
    if q :| ReachedIn(start, doc.schemas, q, n) && r in SchemaRefs(doc.schemas, q) {
      assert q == Ref(Schemas, q.name);
    }
    if s :| FollowedIn(doc, keep, Ref(Schemas, s), n) && s in doc.schemas && RefersTo(doc.schemas[s], r) {
      assert r in SchemaRefs(doc.schemas, Ref(Schemas, s));
    }
  }

  /** What is reached from the kept operations is what is followed from them. */
  lemma FollowsExactly(doc: Doc, keep: Keep, r: Ref)
    ensures r in Reached(PathRefs(KeptPaths(doc.paths, keep)), doc.schemas) <==> Follows(doc, keep, r)
  {
    var start := PathRefs(KeptPaths(doc.paths, keep));
    hide KeptPaths, PathRefs, ReachedIn, FollowedIn;
    if n: nat :| ReachedIn(start, doc.schemas, r, n) {
      FollowedExactly(doc, keep, r, n);
    }
    if n: nat :| FollowedIn(doc, keep, r, n) {
      FollowedExactly(doc, keep, r, n);
    }
  }

  lemma RequiresExactly(doc: Doc, keep: Keep, n: string)
    ensures n in SecurityNames(KeptPaths(doc.paths, keep)) <==> Requires(doc, keep, n)
  {
    KeptPathsExactly(doc, keep);
    hide KeptPaths, OpSecurity, Lists;
    var paths := KeptPaths(doc.paths, keep);
    forall p, k | KeptAt(doc, keep, p, k) ensures n in OpSecurity(paths[p][k]) <==> Lists(doc.paths[p][k], n) {
      ListsExactly(doc.paths[p][k], n);
    }
  }

  lemma ListsExactly(op: Value, n: string)
    ensures n in OpSecurity(op) <==> Lists(op, n)
  {
  }

  /**
   What filtering keeps: the kept operations, at their places; each schema they refer to, or that a schema kept refers
   to; and each security scheme they require, or that is referred to so.
   */
  lemma FilteredExactly(doc: Doc, keep: Keep)
    ensures var out := Filtered(doc, keep);
      && out.openapi == doc.openapi
      && (forall p, k :: p in out.paths && k in out.paths[p] <==> KeptAt(doc, keep, p, k))
      && (forall p, k :: KeptAt(doc, keep, p, k) ==> out.paths[p][k] == doc.paths[p][k])
      && (forall p :: p in out.paths ==> exists k :: k in out.paths[p])
    ensures var out := Filtered(doc, keep);
      && (forall n :: n in out.schemas <==> SchemaOut(doc, keep, n))
      && (forall n :: n in out.schemas ==> out.schemas[n] == doc.schemas[n])
      && (forall n :: n in out.security <==> SchemeOut(doc, keep, n))
      && (forall n :: n in out.security ==> out.security[n] == doc.security[n])
  {
    KeptPathsExactly(doc, keep);
    hide KeptPaths, PathRefs, Reached, SecurityNames, Follows, Requires, KeptAt;
    forall n ensures Ref(Schemas, n) in Reached(PathRefs(KeptPaths(doc.paths, keep)), doc.schemas)
      <==> Follows(doc, keep, Ref(Schemas, n))
    {
      FollowsExactly(doc, keep, Ref(Schemas, n));
    }
    forall n ensures Ref(SecuritySchemes, n) in Reached(PathRefs(KeptPaths(doc.paths, keep)), doc.schemas)
      <==> Follows(doc, keep, Ref(SecuritySchemes, n))
    {
      FollowsExactly(doc, keep, Ref(SecuritySchemes, n));
    }
    forall n ensures n in SecurityNames(KeptPaths(doc.paths, keep)) <==> Requires(doc, keep, n) {
      RequiresExactly(doc, keep, n);
    }
  }

  /** What makes an operation one of a tag, and what makes it stable. */
  lemma KeptByTag(tag: string, op: map<string, Value>)
    ensures Tagged(tag)(op) <==>
      "tags" in op && op["tags"].Arr? && exists i :: 0 <= i < |op["tags"].items| && op["tags"].items[i] == Str(tag)
    ensures Stable(op) <==> !("x-stability" in op && op["x-stability"] == Str("preview"))
  {
    if TAGS in op && op[TAGS].Arr? {
      assert Str(tag) in op[TAGS].items <==> exists i :: 0 <= i < |op[TAGS].items| && op[TAGS].items[i] == Str(tag);
    }
  }
}
