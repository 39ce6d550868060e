/**
 `strip_annotations` and the shape under `shape_hash`: annotation keywords are dropped where they are
 keywords and kept where they are names, and the shape is what is left of the stable operations.
 */
module Annotations {
  import opened Options
  import opened Json
  import opened Components
  import opened Published

  const ANNOTATIONS: set<string> := {"description", "summary", "title", "example", "examples"}

  /** Mappings whose keys are names. */
  const NAME_MAPS: set<string> := {
    "properties", "patternProperties", "schemas", "paths", "responses", "content", "securitySchemes",
    "$defs", "definitions"}

  /** `names` says that this value's keys are names. */
  function Strip(v: Value, names: bool): Value
    decreases v
  {
    match v
    case Obj(fields) =>
      Obj(map k | k in fields && (names || k !in ANNOTATIONS) :: Strip(fields[k], !names && k in NAME_MAPS))
    case Arr(items) => Arr(seq(|items|, i requires 0 <= i < |items| => Strip(items[i], false)))
    case _ => v
  }

  // ---- stripping settles

  lemma {:induction false} StripTwice(v: Value, names: bool)
    ensures Strip(Strip(v, names), names) == Strip(v, names)
    decreases v
  {
    hide ANNOTATIONS, NAME_MAPS;
    match v
    case Obj(fields) =>
      var once := Strip(v, names).fields;
      forall k | k in once ensures Strip(once[k], !names && k in NAME_MAPS) == once[k] {
        StripTwice(fields[k], !names && k in NAME_MAPS);
      }
      assert Strip(Obj(once), names).fields == once;
    case Arr(items) =>
      var once := Strip(v, names).items;
      forall i | 0 <= i < |once| ensures Strip(once[i], false) == once[i] {
        StripTwice(items[i], false);
      }
      assert Strip(Arr(once), names).items == once;
    case _ =>
  }

  // ---- which keywords those are

  /** One key alone is taken away exactly when it is one of the five annotation keywords. */
  lemma DropsExactly(k: string, v: Value)
    ensures Strip(Obj(map[k := v]), false) == Obj(map[]) <==>
      k == "description" || k == "summary" || k == "title" || k == "example" || k == "examples"
  {
    var fields := map[k := v];
    assert k in fields;
    var left := Strip(Obj(fields), false).fields;
    assert k in left <==> k !in ANNOTATIONS;
    assert left == map[] <==> k !in left;
  }

  /** A key that is kept keeps a `title` under it exactly when it is one of the nine whose keys are names. */
  lemma NamesExactly(k: string, v: Value)
    requires Strip(Obj(map[k := Null]), false) != Obj(map[])
    ensures Under(Strip(Obj(map[k := Obj(map["title" := v])]), false), k) != Obj(map[]) <==>
      || k == "properties" || k == "patternProperties" || k == "schemas" || k == "paths" || k == "responses"
      || k == "content" || k == "securitySchemes" || k == "$defs" || k == "definitions"
  {
    KeptUnlessAnnotation(k);
    TitleUnder(v);
    hide ANNOTATIONS, Strip, Under;
    StripUnder(map[k := Obj(map["title" := v])], k);
  }

  lemma KeptUnlessAnnotation(k: string)
    ensures k in ANNOTATIONS <==> Strip(Obj(map[k := Null]), false) == Obj(map[])
  {
    var fields := map[k := Null];
    assert k in fields;
    hide ANNOTATIONS, NAME_MAPS;
    var left := Strip(Obj(fields), false).fields;
    assert k in left <==> k !in ANNOTATIONS;
    assert left == map[] <==> k !in left;
  }

  lemma TitleUnder(v: Value)
    ensures Strip(Obj(map["title" := v]), false) == Obj(map[]) && Strip(Obj(map["title" := v]), true) != Obj(map[])
  {
    DropsExactly("title", v);
    hide ANNOTATIONS, NAME_MAPS;
    assert "title" in Strip(Obj(map["title" := v]), true).fields;
  }

  // ---- what stripping leaves, place by place

  /** Are the keys of what the step leads to names? */
  predicate NamesBehind(into: Into, names: bool) {
    into.Key? && !names && into.k in NAME_MAPS
  }

  function NamesAt(path: seq<Into>, names: bool): bool
    decreases |path|
  {
    if path == [] then names else NamesAt(path[1..], NamesBehind(path[0], names))
  }

  /** Does the path step under an annotation keyword, where keys are not names? */
  predicate Annotated(path: seq<Into>, names: bool)
    decreases |path|
  {
    path != [] && ((path[0].Key? && !names && path[0].k in ANNOTATIONS)
                   || Annotated(path[1..], NamesBehind(path[0], names)))
  }

  /** Stripping takes away exactly what stands under an annotation keyword; all else stands where it stood, stripped. */
  lemma {:induction false} StrippedAt(v: Value, names: bool, path: seq<Into>)
    ensures At(Strip(v, names), path) ==
      if Annotated(path, names) || At(v, path).None? then None
      else Some(Strip(At(v, path).value, NamesAt(path, names)))
    decreases |path|
  {
    hide ANNOTATIONS, NAME_MAPS;
    if path != [] {
      match path[0]
      case Key(k) =>
        if v.Obj? && k in v.fields {
          StrippedAt(v.fields[k], !names && k in NAME_MAPS, path[1..]);
        }
      case Place(i) =>
        if v.Arr? && i < |v.items| {
          StrippedAt(v.items[i], false, path[1..]);
        }
    }
  }

  // ---- documents that differ only in annotations

  /** The two values are the same but for the annotation keywords, and what they hold. */
  ghost predicate SameBut(a: Value, b: Value, names: bool)
    decreases a
  {
    match a
    case Obj(fa) =>
      && b.Obj?
      && (forall k :: names || k !in ANNOTATIONS ==> (k in fa <==> k in b.fields))
      && (forall k :: k in fa && k in b.fields && (names || k !in ANNOTATIONS) ==>
            SameBut(fa[k], b.fields[k], !names && k in NAME_MAPS))
    case Arr(ia) =>
      && b.Arr? && |ia| == |b.items|
      && (forall i :: 0 <= i < |ia| ==> SameBut(ia[i], b.items[i], false))
    case _ => a == b
  }

  /** Two objects strip alike exactly when the keys kept are the same, and what they hold strips alike. */
  lemma FieldsAgree(fa: map<string, Value>, fb: map<string, Value>, names: bool)
    ensures Strip(Obj(fa), names) == Strip(Obj(fb), names) <==>
      ((forall k :: names || k !in ANNOTATIONS ==> (k in fa <==> k in fb))
       && forall k :: k in fa && k in fb && (names || k !in ANNOTATIONS) ==>
            Strip(fa[k], !names && k in NAME_MAPS) == Strip(fb[k], !names && k in NAME_MAPS))
  {
    hide ANNOTATIONS, NAME_MAPS;
    var sa, sb := Strip(Obj(fa), names).fields, Strip(Obj(fb), names).fields;
    assert forall k :: k in sa <==> k in fa && (names || k !in ANNOTATIONS);
    assert forall k :: k in sb <==> k in fb && (names || k !in ANNOTATIONS);
    if sa == sb {
      forall k | k in fa && k in fb && (names || k !in ANNOTATIONS)
        ensures Strip(fa[k], !names && k in NAME_MAPS) == Strip(fb[k], !names && k in NAME_MAPS)
      {
        assert sa[k] == sb[k];
      }
    }
  }

  lemma {:induction false} SameButIsSameStripped(a: Value, b: Value, names: bool)
    ensures Strip(a, names) == Strip(b, names) <==> SameBut(a, b, names)
    decreases a
  {
    hide ANNOTATIONS, NAME_MAPS;
    match a
    case Obj(fa) =>
      if b.Obj? {
        forall k | k in fa && k in b.fields && (names || k !in ANNOTATIONS)
          ensures Strip(fa[k], !names && k in NAME_MAPS) == Strip(b.fields[k], !names && k in NAME_MAPS) <==>
            SameBut(fa[k], b.fields[k], !names && k in NAME_MAPS)
        {
          SameButIsSameStripped(fa[k], b.fields[k], !names && k in NAME_MAPS);
        }
        FieldsAgree(fa, b.fields, names);
      }
    case Arr(ia) =>
      if b.Arr? && |ia| == |b.items| {
        var sa, sb := Strip(a, names).items, Strip(b, names).items;
        forall i | 0 <= i < |ia| ensures sa[i] == sb[i] <==> SameBut(ia[i], b.items[i], false) {
          SameButIsSameStripped(ia[i], b.items[i], false);
        }
        if SameBut(a, b, names) {
          assert sa == sb;
        }
      } else if b.Arr? {
        assert |Strip(a, names).items| != |Strip(b, names).items|;
      }
    case _ =>
  }

  // ---- references survive stripping

  /** No annotation, where it is one, holds a component reference. */
  ghost predicate Quiet(v: Value, names: bool)
    decreases v
  {
    match v
    case Obj(fields) =>
      forall k :: k in fields ==>
        if !names && k in ANNOTATIONS then FieldRefs(k, fields[k]) == {}
        else Quiet(fields[k], !names && k in NAME_MAPS)
    case Arr(items) => forall i :: 0 <= i < |items| ==> Quiet(items[i], false)
    case _ => true
  }

  lemma {:induction false} StripKeepsRefs(v: Value, names: bool)
    requires Quiet(v, names)
    ensures Refs(Strip(v, names)) == Refs(v)
    decreases v
  {
    hide ANNOTATIONS, NAME_MAPS, REF;
    match v
    case Obj(fields) =>
      var stripped := Strip(v, names).fields;
      forall k | k in stripped ensures FieldRefs(k, stripped[k]) == FieldRefs(k, fields[k]) {
        StripKeepsRefs(fields[k], !names && k in NAME_MAPS);
      }
      forall r | r in Refs(v) ensures r in Refs(Obj(stripped)) {
        var k :| k in fields && r in FieldRefs(k, fields[k]);
        assert k in stripped;
      }
    case Arr(items) =>
      var stripped := Strip(v, names).items;
      forall i | 0 <= i < |items| ensures Refs(stripped[i]) == Refs(items[i]) {
        StripKeepsRefs(items[i], false);
      }
    case _ =>
  }

  lemma SameButRefs(a: Value, b: Value, names: bool)
    requires SameBut(a, b, names) && Quiet(a, names) && Quiet(b, names)
    ensures Refs(a) == Refs(b)
  {
    SameButIsSameStripped(a, b, names);
    StripKeepsRefs(a, names);
    StripKeepsRefs(b, names);
  }

  // ---- the shape

  const OPENAPI := "openapi"
  const PATHS := "paths"
  const COMPONENTS := "components"
  const SCHEMAS := "schemas"
  const SECURITY_SCHEMES := "securitySchemes"

  function PathsValue(paths: Paths): Value {
    Obj(map p | p in paths :: Obj(paths[p]))
  }

  /** The components section, each part only when it is not empty. */
  function ComponentsValue(doc: Doc): map<string, Value> {
    (if doc.schemas == map[] then map[] else map[SCHEMAS := Obj(doc.schemas)])
    + (if doc.security == map[] then map[] else map[SECURITY_SCHEMES := Obj(doc.security)])
  }

  /** What `_filter_ops` returns, as the dictionary it is. */
  function ToValue(doc: Doc): Value {
    Obj(map[OPENAPI := doc.openapi, PATHS := PathsValue(doc.paths)]
        + (if ComponentsValue(doc) == map[] then map[] else map[COMPONENTS := Obj(ComponentsValue(doc))]))
  }

  /** The canonical text under the hash, before it is printed: printing and hashing are one to one. */
  ghost function Shape(doc: Doc): Value {
    Strip(ToValue(Filtered(doc, Stable)), false)
  }

  function StripItem(item: Item): Item {
    map k | k in item && k !in ANNOTATIONS :: Strip(item[k], k in NAME_MAPS)
  }

  function StripAll(m: map<string, Value>): map<string, Value> {
    map n | n in m :: Strip(m[n], false)
  }

  function StripPaths(paths: Paths): Paths {
    map p | p in paths :: StripItem(paths[p])
  }

  function StripDoc(doc: Doc): Doc {
    Doc(Strip(doc.openapi, false), StripPaths(doc.paths), StripAll(doc.schemas), StripAll(doc.security))
  }

  lemma StripNamed(m: map<string, Value>)
    ensures Strip(Obj(m), true) == Obj(StripAll(m))
    ensures m == map[] <==> StripAll(m) == map[]
  {
    hide ANNOTATIONS, NAME_MAPS;
    assert StripAll(m).Keys == m.Keys;
  }

  lemma StripPathsValue(paths: Paths)
    ensures Strip(PathsValue(paths), true) == PathsValue(StripPaths(paths))
  {
    hide ANNOTATIONS, NAME_MAPS;
    forall p | p in paths ensures Strip(Obj(paths[p]), false) == Obj(StripItem(paths[p])) {
    }
  }

  /** Equal stripped documents have equal stripped values: the shape reads off the stripped parts. */
  lemma SameStrippedSameValue(a: Doc, b: Doc)
    requires StripDoc(a) == StripDoc(b)
    ensures Strip(ToValue(a), false) == Strip(ToValue(b), false)
  {
    hide ANNOTATIONS, NAME_MAPS, Strip, StripAll, StripPaths;
    StripNamed(a.schemas);
    StripNamed(b.schemas);
    StripNamed(a.security);
    StripNamed(b.security);
    StripPathsValue(a.paths);
    StripPathsValue(b.paths);
    SectionsStrip(a, b);
  }

  lemma KeyFacts()
    ensures SCHEMAS in NAME_MAPS && SECURITY_SCHEMES in NAME_MAPS && PATHS in NAME_MAPS
    ensures OPENAPI !in NAME_MAPS && COMPONENTS !in NAME_MAPS
    ensures OPENAPI != PATHS && SCHEMAS != SECURITY_SCHEMES && COMPONENTS != OPENAPI && COMPONENTS != PATHS
  {
    assert OPENAPI[0] == 'o' && PATHS[0] == 'p' && COMPONENTS[0] == 'c' && COMPONENTS[2] == 'm';
    assert SCHEMAS[1] == 'c' && SECURITY_SCHEMES[1] == 'e';
  }

  /** Field by field. */
  lemma SameFields(fa: map<string, Value>, fb: map<string, Value>, names: bool)
    requires fa.Keys == fb.Keys
    requires forall k :: k in fa ==> Strip(fa[k], !names && k in NAME_MAPS) == Strip(fb[k], !names && k in NAME_MAPS)
    ensures Strip(Obj(fa), names) == Strip(Obj(fb), names)
  {
    hide ANNOTATIONS, NAME_MAPS;
  }

  lemma SectionsStrip(a: Doc, b: Doc)
    requires Strip(a.openapi, false) == Strip(b.openapi, false)
    requires Strip(PathsValue(a.paths), true) == Strip(PathsValue(b.paths), true)
    requires Strip(Obj(a.schemas), true) == Strip(Obj(b.schemas), true) && (a.schemas == map[] <==> b.schemas == map[])
    requires Strip(Obj(a.security), true) == Strip(Obj(b.security), true)
      && (a.security == map[] <==> b.security == map[])
    ensures Strip(ToValue(a), false) == Strip(ToValue(b), false)
  {
    KeyFacts();
    hide ANNOTATIONS, NAME_MAPS, Strip, PathsValue, OPENAPI, PATHS, COMPONENTS, SCHEMAS, SECURITY_SCHEMES;
    ComponentsStrip(a, b);
    hide ComponentsValue, PathsValue;
    var fa, fb := ToValue(a).fields, ToValue(b).fields;
    assert fa.Keys == fb.Keys;
    forall k | k in fa ensures Strip(fa[k], k in NAME_MAPS) == Strip(fb[k], k in NAME_MAPS) {
      if k != OPENAPI && k != PATHS {
        assert fa[k] == Obj(ComponentsValue(a)) && fb[k] == Obj(ComponentsValue(b));
      }
    }
    SameFields(fa, fb, false);
  }

  lemma ComponentsStrip(a: Doc, b: Doc)
    requires Strip(Obj(a.schemas), true) == Strip(Obj(b.schemas), true) && (a.schemas == map[] <==> b.schemas == map[])
    requires Strip(Obj(a.security), true) == Strip(Obj(b.security), true)
      && (a.security == map[] <==> b.security == map[])
    ensures Strip(Obj(ComponentsValue(a)), false) == Strip(Obj(ComponentsValue(b)), false)
    ensures ComponentsValue(a) == map[] <==> ComponentsValue(b) == map[]
  {
    KeyFacts();
    hide ANNOTATIONS, NAME_MAPS, Strip, SCHEMAS, SECURITY_SCHEMES;
    var ca, cb := ComponentsValue(a), ComponentsValue(b);
    EmptyByKeys(ca, cb);
    SameFields(ca, cb, false);
  }

  // ---- what moves the shape

  ghost predicate SameItem(a: Item, b: Item) {
    && (forall k :: k !in ANNOTATIONS ==> (k in a <==> k in b))
    && (forall k :: k in a && k in b && k !in ANNOTATIONS ==> SameBut(a[k], b[k], k in NAME_MAPS))
  }

  ghost predicate SameAll(a: map<string, Value>, b: map<string, Value>) {
    a.Keys == b.Keys && forall n :: n in a ==> SameBut(a[n], b[n], false)
  }

  /** The two documents are the same but for their annotations. */
  ghost predicate SameDoc(a: Doc, b: Doc) {
    && SameBut(a.openapi, b.openapi, false)
    && a.paths.Keys == b.paths.Keys && (forall p :: p in a.paths ==> SameItem(a.paths[p], b.paths[p]))
    && SameAll(a.schemas, b.schemas) && SameAll(a.security, b.security)
  }

  lemma SameStable(a: Value, b: Value, names: bool)
    requires SameBut(a, b, names) && a.Obj?
    ensures Stable(a.fields) == Stable(b.fields)
  {
    StabilityIsKept();
    hide ANNOTATIONS, NAME_MAPS, STABILITY, PREVIEW;
    if STABILITY in a.fields {
      var x, y := a.fields[STABILITY], b.fields[STABILITY];
      assert SameBut(x, y, !names && STABILITY in NAME_MAPS);
      assert x == Str(PREVIEW) <==> y == Str(PREVIEW);
    }
  }

  lemma StabilityIsKept()
    ensures STABILITY !in ANNOTATIONS && SECURITY !in ANNOTATIONS && SECURITY !in NAME_MAPS
  {
    assert STABILITY[0] == 'x';
    assert |SECURITY| == 8;
  }

  /** Under a key that is no annotation, the two items keep the same operations, and those strip alike. */
  lemma SameKeptItem(a: Item, b: Item)
    requires SameItem(a, b)
    ensures StripItem(KeptOps(a, Stable)) == StripItem(KeptOps(b, Stable))
    ensures forall k :: k !in ANNOTATIONS ==> (k in KeptOps(a, Stable) <==> k in KeptOps(b, Stable))
  {
    hide ANNOTATIONS, NAME_MAPS, Stable, Strip;
    forall k | k in a && k in b && k !in ANNOTATIONS
      ensures a[k].Obj? <==> b[k].Obj?
      ensures a[k].Obj? && b[k].Obj? ==> Stable(a[k].fields) == Stable(b[k].fields)
      ensures Strip(a[k], k in NAME_MAPS) == Strip(b[k], k in NAME_MAPS)
    {
      SameButIsSameStripped(a[k], b[k], k in NAME_MAPS);
      if a[k].Obj? {
        SameStable(a[k], b[k], k in NAME_MAPS);
      }
    }
  }

  // ---- which names a document publishes

  /** The references reached from the stable operations. */
  ghost function Followed(doc: Doc): set<Ref> {
    Reached(PathRefs(KeptPaths(doc.paths, Stable)), doc.schemas)
  }

  ghost predicate Uses(doc: Doc, scheme: string) {
    scheme in SecurityNames(KeptPaths(doc.paths, Stable)) || Ref(SecuritySchemes, scheme) in Followed(doc)
  }

  /** The path has a stable operation. */
  ghost predicate Offers(doc: Doc, p: string) {
    exists k :: KeptAt(doc, Stable, p, k)
  }

  /** The paths with a stable operation, the schemas these reach, and the schemes they require or reach. */
  ghost predicate SameNames(a: Doc, b: Doc) {
    && (forall p :: Offers(a, p) <==> Offers(b, p))
    && (forall n :: SchemaOut(a, Stable, n) <==> SchemaOut(b, Stable, n))
    && (forall n :: SchemeOut(a, Stable, n) <==> SchemeOut(b, Stable, n))
  }

  /** The names the stable part of a document has. */
  lemma NamesPublished(doc: Doc)
    ensures var out := Filtered(doc, Stable);
      && out.paths == KeptPaths(doc.paths, Stable)
      && (forall n :: n in out.schemas <==> n in doc.schemas && Ref(Schemas, n) in Followed(doc))
      && (forall n :: n in out.security <==> n in doc.security && Uses(doc, n))
  {
    hide Reached, PathRefs, SecurityNames, KeptPaths, Stable;
  }

  lemma PathsOffered(doc: Doc)
    ensures forall p :: p in Filtered(doc, Stable).paths <==> Offers(doc, p)
  {
    FilteredExactly(doc, Stable);
    hide Filtered, KeptAt, Stable;
  }

  lemma SameNamesIsSameKeys(a: Doc, b: Doc)
    ensures var fa, fb := Filtered(a, Stable), Filtered(b, Stable);
      SameNames(a, b) <==>
        fa.paths.Keys == fb.paths.Keys && fa.schemas.Keys == fb.schemas.Keys && fa.security.Keys == fb.security.Keys
  {
    PathsOffered(a);
    PathsOffered(b);
    FilteredExactly(a, Stable);
    FilteredExactly(b, Stable);
    hide Filtered, Offers, SchemaOut, SchemeOut, KeptAt, Stable;
  }

  /** The same, said of what filtering reaches. */
  lemma SameNamesByKept(a: Doc, b: Doc)
    ensures SameNames(a, b) <==>
      && KeptPaths(a.paths, Stable).Keys == KeptPaths(b.paths, Stable).Keys
      && (forall n :: n in a.schemas && Ref(Schemas, n) in Followed(a) <==>
            n in b.schemas && Ref(Schemas, n) in Followed(b))
      && (forall n :: n in a.security && Uses(a, n) <==> n in b.security && Uses(b, n))
  {
    SameNamesIsSameKeys(a, b);
    hide Filtered, Followed, Uses, KeptPaths, SameNames;
    NamesPublished(a);
    NamesPublished(b);
  }

  // ---- what the shape shows

  /** What a value holds under a key, when both are objects. */
  function Under(v: Value, k: string): Value {
    if v.Obj? && k in v.fields then v.fields[k] else Obj(map[])
  }

  lemma NoSectionIsAnnotation()
    ensures OPENAPI !in ANNOTATIONS && PATHS !in ANNOTATIONS && COMPONENTS !in ANNOTATIONS
      && SCHEMAS !in ANNOTATIONS && SECURITY_SCHEMES !in ANNOTATIONS
  {
    assert OPENAPI[0] == 'o' && PATHS[0] == 'p' && COMPONENTS[0] == 'c';
    assert SCHEMAS[1] == 'c' && SECURITY_SCHEMES[1] == 'e' && |SECURITY_SCHEMES| == 15;
  }

  lemma StripUnder(fields: map<string, Value>, k: string)
    requires k !in ANNOTATIONS
    ensures Under(Strip(Obj(fields), false), k) == if k in fields then Strip(fields[k], k in NAME_MAPS) else Obj(map[])
  {
    hide ANNOTATIONS, NAME_MAPS;
  }

  /** The shape shows the stripped paths. */
  lemma ShapeShowsTop(doc: Doc)
    ensures Under(Strip(ToValue(doc), false), OPENAPI) == Strip(doc.openapi, false)
    ensures Under(Strip(ToValue(doc), false), PATHS) == PathsValue(StripPaths(doc.paths))
  {
    KeyFacts();
    NoSectionIsAnnotation();
    hide ANNOTATIONS, NAME_MAPS, Strip, OPENAPI, PATHS, COMPONENTS, ComponentsValue, PathsValue, StripPaths, Under;
    StripUnder(ToValue(doc).fields, OPENAPI);
    StripUnder(ToValue(doc).fields, PATHS);
    StripPathsValue(doc.paths);
  }

  /** And the stripped components of either kind. */
  lemma ShapeShowsSection(doc: Doc, section: string, m: map<string, Value>)
    requires section in NAME_MAPS && section !in ANNOTATIONS
    requires section in ComponentsValue(doc) <==> m != map[]
    requires section in ComponentsValue(doc) ==> ComponentsValue(doc)[section] == Obj(m)
    ensures Under(Under(Strip(ToValue(doc), false), COMPONENTS), section) == Obj(StripAll(m))
  {
    KeyFacts();
    NoSectionIsAnnotation();
    hide ANNOTATIONS, NAME_MAPS, Strip, OPENAPI, PATHS, COMPONENTS, ComponentsValue, PathsValue, Under, StripAll;
    StripNamed(m);
    StripUnder(ToValue(doc).fields, COMPONENTS);
    StripUnder(ComponentsValue(doc), section);
    NothingUnder(section);
  }

  lemma NothingUnder(k: string)
    ensures Under(Obj(map[]), k) == Obj(map[])
  {
  }

  /** The paths as a dictionary tell the paths. */
  lemma PathsValueInjective(p: Paths, q: Paths)
    requires PathsValue(p) == PathsValue(q)
    ensures p == q
  {
    var x, y := PathsValue(p).fields, PathsValue(q).fields;
    assert x.Keys == p.Keys && y.Keys == q.Keys;
    forall k | k in p ensures p[k] == q[k] {
      assert x[k] == y[k];
    }
  }

  /** Two documents have one stripped dictionary exactly when their parts strip alike. */
  lemma StrippedShowsAll(a: Doc, b: Doc)
    ensures Strip(ToValue(a), false) == Strip(ToValue(b), false) <==> StripDoc(a) == StripDoc(b)
  {
    KeyFacts();
    NoSectionIsAnnotation();
    hide ANNOTATIONS, NAME_MAPS, Strip, ToValue, SCHEMAS, SECURITY_SCHEMES, COMPONENTS, PATHS, OPENAPI, Under,
      StripPaths, StripAll, PathsValue;
    if Strip(ToValue(a), false) == Strip(ToValue(b), false) {
      ShapeShowsTop(a);
      ShapeShowsTop(b);
      PathsValueInjective(StripPaths(a.paths), StripPaths(b.paths));
      ShapeShowsSection(a, SCHEMAS, a.schemas);
      ShapeShowsSection(b, SCHEMAS, b.schemas);
      ShapeShowsSection(a, SECURITY_SCHEMES, a.security);
      ShapeShowsSection(b, SECURITY_SCHEMES, b.security);
    }
    if StripDoc(a) == StripDoc(b) {
      SameStrippedSameValue(a, b);
    }
  }

  lemma SameItemIsSameStripped(a: Item, b: Item)
    ensures StripItem(a) == StripItem(b) <==> SameItem(a, b)
  {
    hide ANNOTATIONS, NAME_MAPS, Strip, SameBut;
    var x, y := StripItem(a), StripItem(b);
    forall k | k in a && k in b
      ensures Strip(a[k], k in NAME_MAPS) == Strip(b[k], k in NAME_MAPS) <==> SameBut(a[k], b[k], k in NAME_MAPS)
    {
      SameButIsSameStripped(a[k], b[k], k in NAME_MAPS);
    }
    assert forall k :: k in x <==> k in a && k !in ANNOTATIONS;
    assert forall k :: k in y <==> k in b && k !in ANNOTATIONS;
    if x == y {
      forall k | k in a && k in b && k !in ANNOTATIONS ensures SameBut(a[k], b[k], k in NAME_MAPS) {
        assert x[k] == y[k];
      }
    }
  }

  lemma SameAllIsSameStripped(a: map<string, Value>, b: map<string, Value>)
    ensures StripAll(a) == StripAll(b) <==> SameAll(a, b)
  {
    hide Strip, SameBut;
    var x, y := StripAll(a), StripAll(b);
    assert x.Keys == a.Keys && y.Keys == b.Keys;
    forall n | n in a && n in b ensures Strip(a[n], false) == Strip(b[n], false) <==> SameBut(a[n], b[n], false) {
      SameButIsSameStripped(a[n], b[n], false);
    }
    if x == y {
      forall n | n in a ensures SameBut(a[n], b[n], false) {
        assert x[n] == y[n];
      }
    }
  }

  lemma SamePathsIsSameStripped(a: Paths, b: Paths)
    ensures StripPaths(a) == StripPaths(b) <==>
      a.Keys == b.Keys && forall p :: p in a && p in b ==> SameItem(a[p], b[p])
  {
    hide StripItem, SameItem;
    var x, y := StripPaths(a), StripPaths(b);
    assert x.Keys == a.Keys && y.Keys == b.Keys;
    forall p | p in a && p in b ensures StripItem(a[p]) == StripItem(b[p]) <==> SameItem(a[p], b[p]) {
      SameItemIsSameStripped(a[p], b[p]);
    }
    if x == y {
      forall p | p in a && p in b ensures SameItem(a[p], b[p]) {
        assert x[p] == y[p];
      }
    }
  }

  lemma SameDocIsSameStripped(a: Doc, b: Doc)
    ensures StripDoc(a) == StripDoc(b) <==> SameDoc(a, b)
  {
    hide Strip, StripPaths, StripAll, SameBut, SameItem, SameAll;
    SameButIsSameStripped(a.openapi, b.openapi, false);
    SamePathsIsSameStripped(a.paths, b.paths);
    SameAllIsSameStripped(a.schemas, b.schemas);
    SameAllIsSameStripped(a.security, b.security);
  }

  /** The operation at this place is stable, and no annotation of its path. */
  ghost predicate Shown(doc: Doc, p: string, k: string) {
    KeptAt(doc, Stable, p, k) && k !in ANNOTATIONS
  }

  /** The path has the same stable operations in both, and they are the same but for annotations. */
  ghost predicate SameOperations(a: Doc, b: Doc, p: string) {
    && (forall k :: Shown(a, p, k) <==> Shown(b, p, k))
    && (forall k :: Shown(a, p, k) && Shown(b, p, k) ==> SameBut(a.paths[p][k], b.paths[p][k], k in NAME_MAPS))
  }

  /**
   The stable parts of two documents are the same but for annotations: the version of the format, the operations by
   path and method, the schemas these reach and the schemes they require or reach, under the same names.
   */
  ghost predicate SamePublished(a: Doc, b: Doc) {
    && SameBut(a.openapi, b.openapi, false) && SameNames(a, b)
    && (forall p :: SameOperations(a, b, p))
    && (forall n :: SchemaOut(a, Stable, n) && SchemaOut(b, Stable, n) ==> SameBut(a.schemas[n], b.schemas[n], false))
    && (forall n :: SchemeOut(a, Stable, n) && SchemeOut(b, Stable, n) ==>
          SameBut(a.security[n], b.security[n], false))
  }

  /** One path both offer: its kept items are the same exactly when its operations are. */
  lemma SameItemOut(a: Doc, b: Doc, p: string)
    requires p in Filtered(a, Stable).paths && p in Filtered(b, Stable).paths
    ensures SameItem(Filtered(a, Stable).paths[p], Filtered(b, Stable).paths[p]) <==> SameOperations(a, b, p)
  {
    FilteredExactly(a, Stable);
    FilteredExactly(b, Stable);
    hide Filtered, SameBut, Stable, ANNOTATIONS, NAME_MAPS, SchemaOut, SchemeOut, KeptAt;
    KeptIsThere(a, p);
    KeptIsThere(b, p);
    var x, y := Filtered(a, Stable).paths[p], Filtered(b, Stable).paths[p];
    forall k ensures Shown(a, p, k) <==> k in x && k !in ANNOTATIONS {
      assert k in x <==> KeptAt(a, Stable, p, k);
    }
    forall k ensures Shown(b, p, k) <==> k in y && k !in ANNOTATIONS {
      assert k in y <==> KeptAt(b, Stable, p, k);
    }
    forall k | Shown(a, p, k) && Shown(b, p, k) ensures x[k] == a.paths[p][k] && y[k] == b.paths[p][k] {
    }
    hide Shown;
  }

  lemma KeptIsThere(doc: Doc, p: string)
    ensures forall k :: KeptAt(doc, Stable, p, k) ==> p in doc.paths && k in doc.paths[p]
    ensures forall k :: KeptAt(doc, Stable, p, k) ==> Offers(doc, p)
  {
  }

  lemma SamePathsOut(a: Doc, b: Doc)
    requires forall p :: Offers(a, p) <==> Offers(b, p)
    ensures var x, y := Filtered(a, Stable).paths, Filtered(b, Stable).paths;
      (forall p :: p in x && p in y ==> SameItem(x[p], y[p])) <==> forall p :: SameOperations(a, b, p)
  {
    PathsOffered(a);
    PathsOffered(b);
    var x, y := Filtered(a, Stable).paths, Filtered(b, Stable).paths;
    hide Filtered, SameItem, Offers, KeptAt;
    forall p | p in x && p in y ensures SameItem(x[p], y[p]) <==> SameOperations(a, b, p) {
      SameItemOut(a, b, p);
    }
    forall p | p !in x ensures SameOperations(a, b, p) {
      KeptIsThere(a, p);
      KeptIsThere(b, p);
    }
  }

  lemma SamePublishedExactly(a: Doc, b: Doc)
    ensures SameDoc(Filtered(a, Stable), Filtered(b, Stable)) <==> SamePublished(a, b)
  {
    SameNamesIsSameKeys(a, b);
    FilteredExactly(a, Stable);
    FilteredExactly(b, Stable);
    if SameNames(a, b) {
      SamePathsOut(a, b);
    }
    hide Filtered, SameBut, Stable, SameItem, SchemaOut, SchemeOut, Shown, KeptAt, Offers;
  }

  /** Two documents have one shape exactly when their stable parts are the same but for annotations. */
  lemma ShapeExactly(a: Doc, b: Doc)
    ensures Shape(a) == Shape(b) <==> SamePublished(a, b)
  {
    hide Filtered, ToValue, Strip, StripDoc, SameDoc, SamePublished;
    StrippedShowsAll(Filtered(a, Stable), Filtered(b, Stable));
    SameDocIsSameStripped(Filtered(a, Stable), Filtered(b, Stable));
    SamePublishedExactly(a, b);
  }

  lemma SameDocShows(a: Doc, b: Doc, p: string, k: string)
    requires SameDoc(a, b) && Shown(a, p, k)
    ensures Shown(b, p, k) && SameBut(a.paths[p][k], b.paths[p][k], k in NAME_MAPS)
  {
    hide ANNOTATIONS, NAME_MAPS, Stable, SameAll;
    assert SameItem(a.paths[p], b.paths[p]);
    SameStable(a.paths[p][k], b.paths[p][k], k in NAME_MAPS);
  }

  lemma SameDocBack(a: Doc, b: Doc)
    requires SameDoc(a, b)
    ensures SameDoc(b, a)
  {
    hide StripDoc, SameDoc;
    SameDocIsSameStripped(a, b);
    SameDocIsSameStripped(b, a);
  }

  lemma SameDocSameOperations(a: Doc, b: Doc, p: string)
    requires SameDoc(a, b)
    ensures SameOperations(a, b, p)
  {
    SameDocBack(a, b);
    hide SameDoc, SameBut, Stable, ANNOTATIONS, NAME_MAPS;
    forall k ensures Shown(a, p, k) <==> Shown(b, p, k) {
      if Shown(a, p, k) { SameDocShows(a, b, p, k); }
      if Shown(b, p, k) { SameDocShows(b, a, p, k); }
    }
    forall k | Shown(a, p, k) && Shown(b, p, k) ensures SameBut(a.paths[p][k], b.paths[p][k], k in NAME_MAPS) {
      SameDocShows(a, b, p, k);
    }
  }

  /**
   Documents that differ only in annotations have one shape exactly when they publish the same names: paths
   with a stable operation, schemas these reach, and schemes they require or reach.
   */
  lemma AnnotationsMoveShapeExactly(a: Doc, b: Doc)
    requires SameDoc(a, b)
    ensures Shape(a) == Shape(b) <==> SameNames(a, b)
  {
    hide Shape, SameBut, SameItem, SameOperations, SameNames, Follows, Requires;
    ShapeExactly(a, b);
    forall p ensures SameOperations(a, b, p) {
      SameDocSameOperations(a, b, p);
    }
  }

  // ---- one document and its bare self

  lemma StripIsSame(v: Value, names: bool)
    ensures SameBut(v, Strip(v, names), names)
  {
    hide SameBut, Strip;
    StripTwice(v, names);
    SameButIsSameStripped(v, Strip(v, names), names);
  }

  lemma BareIsSame(doc: Doc)
    ensures SameDoc(doc, StripDoc(doc))
  {
    hide ANNOTATIONS, NAME_MAPS, SameBut, Strip;
    StripIsSame(doc.openapi, false);
    forall p, k | p in doc.paths && k in doc.paths[p]
      ensures SameBut(doc.paths[p][k], Strip(doc.paths[p][k], k in NAME_MAPS), k in NAME_MAPS)
    {
      StripIsSame(doc.paths[p][k], k in NAME_MAPS);
    }
    forall n | n in doc.schemas ensures SameBut(doc.schemas[n], Strip(doc.schemas[n], false), false) {
      StripIsSame(doc.schemas[n], false);
    }
    forall n | n in doc.security ensures SameBut(doc.security[n], Strip(doc.security[n], false), false) {
      StripIsSame(doc.security[n], false);
    }
  }

  /**
   The annotations of a document move its shape exactly when taking them all away first changes the names it
   publishes.
   */
  lemma OwnAnnotationsExactly(doc: Doc)
    ensures Shape(doc) == Shape(StripDoc(doc)) <==> SameNames(doc, StripDoc(doc))
  {
    hide SameDoc, SameNames, StripDoc, Shape;
    BareIsSame(doc);
    AnnotationsMoveShapeExactly(doc, StripDoc(doc));
  }

  // ---- where annotations hold no reference

  /** An operation does not sit under a key that is a name map or an annotation, and its annotations are quiet. */
  ghost predicate PlainItem(item: Item) {
    forall k :: k in item && item[k].Obj? ==> k !in ANNOTATIONS && k !in NAME_MAPS && Quiet(item[k], false)
  }

  /** Annotations hold no component reference, and no security scheme has an annotation's name. */
  ghost predicate Plain(doc: Doc) {
    && (forall p :: p in doc.paths ==> PlainItem(doc.paths[p]))
    && (forall n :: n in doc.schemas ==> Quiet(doc.schemas[n], false))
    && doc.security.Keys !! ANNOTATIONS
  }

  /** One operation of two documents, the same but for quiet annotations. */
  ghost predicate SameOp(k: string, a: Value, b: Value) {
    SameBut(a, b, false) && FieldRefs(k, a) == FieldRefs(k, b)
  }

  ghost predicate SameOps(a: Item, b: Item) {
    a.Keys == b.Keys && forall k :: k in a ==> SameOp(k, a[k], b[k])
  }

  lemma PlainOp(k: string, a: Item, b: Item)
    requires SameItem(a, b) && PlainItem(a) && PlainItem(b)
    requires k in KeptOps(a, Stable) && k in KeptOps(b, Stable)
    ensures SameOp(k, a[k], b[k])
  {
    hide ANNOTATIONS, NAME_MAPS, Stable, Quiet, SameBut, Refs, REF;
    SameButRefs(a[k], b[k], false);
  }

  lemma PlainOps(a: Item, b: Item)
    requires SameItem(a, b) && PlainItem(a) && PlainItem(b)
    ensures SameOps(KeptOps(a, Stable), KeptOps(b, Stable))
  {
    hide ANNOTATIONS, NAME_MAPS, Stable, KeptOps, SameOp, SameItem, PlainItem, StripItem;
    SameKeptItem(a, b);
    PlainKeys(a);
    PlainKeys(b);
    var ka, kb := KeptOps(a, Stable), KeptOps(b, Stable);
    forall k ensures k in ka <==> k in kb {
    }
    forall k | k in ka && k in kb ensures SameOp(k, ka[k], kb[k]) {
      PlainOp(k, a, b);
    }
  }

  lemma PlainKeys(a: Item)
    requires PlainItem(a)
    ensures forall k :: k in KeptOps(a, Stable) ==> k in a && KeptOps(a, Stable)[k] == a[k] && k !in ANNOTATIONS
  {
    hide ANNOTATIONS, NAME_MAPS, Stable, Quiet;
  }

  lemma SameOpsEmpty(a: Item, b: Item)
    requires SameOps(a, b)
    ensures a == map[] <==> b == map[]
  {
    hide SameOp;
    EmptyByKeys(a, b);
  }

  lemma EmptyByKeys(a: Item, b: Item)
    requires a.Keys == b.Keys
    ensures a == map[] <==> b == map[]
  {
    assert a == map[] <==> a.Keys == {};
    assert b == map[] <==> b.Keys == {};
  }

  /** The operations kept of either document sit at the same places, and refer to the same components. */
  ghost predicate SameKept(pa: Paths, pb: Paths) {
    pa.Keys == pb.Keys && forall p :: p in pa ==> SameOps(pa[p], pb[p])
  }

  lemma PlainPaths(a: Doc, b: Doc)
    requires SameDoc(a, b) && Plain(a) && Plain(b)
    ensures SameKept(KeptPaths(a.paths, Stable), KeptPaths(b.paths, Stable))
  {
    hide SameBut, KeptOps, SameItem, PlainItem, SameAll, Quiet, SameOps, ANNOTATIONS, NAME_MAPS;
    forall p | p in a.paths
      ensures SameOps(KeptOps(a.paths[p], Stable), KeptOps(b.paths[p], Stable))
      ensures KeptOps(a.paths[p], Stable) == map[] <==> KeptOps(b.paths[p], Stable) == map[]
    {
      PlainOps(a.paths[p], b.paths[p]);
      SameOpsEmpty(KeptOps(a.paths[p], Stable), KeptOps(b.paths[p], Stable));
    }
  }

  lemma SameKeptRefs(pa: Paths, pb: Paths)
    requires SameKept(pa, pb)
    ensures PathRefs(pa) == PathRefs(pb)
  {
    hide FieldRefs, SameBut;
    forall r ensures r in PathRefs(pa) <==> r in PathRefs(pb) {
      if p, k :| p in pa && k in pa[p] && r in FieldRefs(k, pa[p][k]) {
        assert SameOps(pa[p], pb[p]) && SameOp(k, pa[p][k], pb[p][k]);
      }
      if p, k :| p in pb && k in pb[p] && r in FieldRefs(k, pb[p][k]) {
        assert SameOps(pa[p], pb[p]) && SameOp(k, pa[p][k], pb[p][k]);
      }
    }
  }

  lemma SameSchemas(start: set<Ref>, a: map<string, Value>, b: map<string, Value>)
    requires SameAll(a, b)
    requires forall n :: n in a ==> Quiet(a[n], false) && Quiet(b[n], false)
    ensures Reached(start, a) == Reached(start, b)
  {
    hide SameBut, Quiet, Refs;
    forall n | n in a ensures Refs(a[n]) == Refs(b[n]) {
      SameButRefs(a[n], b[n], false);
    }
    forall r ensures SchemaRefs(a, r) == SchemaRefs(b, r) {
    }
    ReachedIsLeast(start, a, Reached(start, b));
    ReachedIsLeast(start, b, Reached(start, a));
  }

  lemma SameOpSecurity(a: Value, b: Value, n: string)
    requires SameBut(a, b, false) && n !in ANNOTATIONS
    ensures n in OpSecurity(a) <==> n in OpSecurity(b)
  {
    StabilityIsKept();
    hide ANNOTATIONS, NAME_MAPS, SECURITY;
    if a.Obj? && SECURITY in a.fields && a.fields[SECURITY].Arr? {
      var ra, rb := a.fields[SECURITY], b.fields[SECURITY];
      assert SameBut(ra, rb, SECURITY in NAME_MAPS);
      forall i | 0 <= i < |ra.items|
        ensures ra.items[i].Obj? && n in ra.items[i].fields <==> rb.items[i].Obj? && n in rb.items[i].fields
      {
        assert SameBut(ra.items[i], rb.items[i], false);
      }
    }
  }

  lemma SameSecurityNames(pa: Paths, pb: Paths, n: string)
    requires SameKept(pa, pb) && n !in ANNOTATIONS
    ensures n in SecurityNames(pa) <==> n in SecurityNames(pb)
  {
    hide ANNOTATIONS, NAME_MAPS, SameBut, OpSecurity, FieldRefs;
    forall p, k | p in pa && k in pa[p] ensures n in OpSecurity(pa[p][k]) <==> n in OpSecurity(pb[p][k]) {
      assert SameOps(pa[p], pb[p]) && SameOp(k, pa[p][k], pb[p][k]);
      SameOpSecurity(pa[p][k], pb[p][k], n);
    }
  }

  lemma PlainFollows(a: Doc, b: Doc)
    requires SameDoc(a, b) && Plain(a) && Plain(b)
    ensures Followed(a) == Followed(b)
  {
    hide SameBut, Quiet, PathRefs, ANNOTATIONS, KeptPaths, Reached, SameKept, SameItem, PlainItem;
    PlainPaths(a, b);
    SameKeptRefs(KeptPaths(a.paths, Stable), KeptPaths(b.paths, Stable));
    SameSchemas(PathRefs(KeptPaths(a.paths, Stable)), a.schemas, b.schemas);
  }

  lemma PlainUses(a: Doc, b: Doc, n: string)
    requires SameDoc(a, b) && Plain(a) && Plain(b) && n in a.security
    ensures Uses(a, n) <==> Uses(b, n)
  {
    PlainFollows(a, b);
    PlainPaths(a, b);
    hide SameBut, Quiet, SecurityNames, ANNOTATIONS, KeptPaths, Followed, SameKept, SameItem, PlainItem;
    SameSecurityNames(KeptPaths(a.paths, Stable), KeptPaths(b.paths, Stable), n);
  }

  lemma PlainNames(a: Doc, b: Doc)
    requires SameDoc(a, b) && Plain(a) && Plain(b)
    ensures SameNames(a, b)
  {
    SameNamesByKept(a, b);
    hide Plain, Uses, Followed, KeptPaths, SameItem, SameBut, SameOp, SameNames;
    PlainFollows(a, b);
    PlainPaths(a, b);
    forall n | n in a.security ensures Uses(a, n) <==> Uses(b, n) {
      PlainUses(a, b, n);
    }
  }

  /** Documents that differ only in annotations, none of which holds a reference, have one shape. */
  lemma AnnotationsDoNotMoveShape(a: Doc, b: Doc)
    requires SameDoc(a, b) && Plain(a) && Plain(b)
    ensures Shape(a) == Shape(b)
  {
    hide SameDoc, Plain, SameNames, Shape;
    PlainNames(a, b);
    AnnotationsMoveShapeExactly(a, b);
  }

  /** Preview operations, and components only they reach, do not move the shape. */
  lemma PreviewDoesNotMoveShape(a: Doc, b: Doc)
    requires AgreeOn(a, b, Stable)
    ensures Shape(a) == Shape(b)
  {
    OnlyTheKeptCounts(a, b, Stable);
  }

  /** The shape of a document is the shape of its stable part. */
  lemma ShapeOfStablePart(doc: Doc)
    ensures Shape(Filtered(doc, Stable)) == Shape(doc)
  {
    FilteringTwiceIsOnce(doc, Stable);
  }

  // ---- an annotation that holds a reference does move it

  const EXAMPLE := "example"

  /** One tagged operation that holds an example, beside one schema. */
  function WithExample(example: Value, schema: string, tag: string): Doc {
    Doc(Null, map["/" := map["get" := Exemplified(example, tag)]], map[schema := Obj(map[])], map[])
  }

  function Exemplified(example: Value, tag: string): Value {
    Obj(map[TAGS := Arr([Str(tag)]), EXAMPLE := example])
  }

  lemma TwoFields(k: string, v: Value, l: string, w: Value)
    requires k != l
    ensures Refs(Obj(map[k := v, l := w])) == FieldRefs(k, v) + FieldRefs(l, w)
  {
    hide ParseRef, REF;
    var fields := map[k := v, l := w];
    assert k in fields && fields[k] == v && l in fields && fields[l] == w;
    forall r ensures r in Refs(Obj(fields)) <==> r in FieldRefs(k, v) || r in FieldRefs(l, w) {
      if r in FieldRefs(k, v) {
        assert k in fields && r in FieldRefs(k, fields[k]);
      }
      if r in FieldRefs(l, w) {
        assert l in fields && r in FieldRefs(l, fields[l]);
      }
    }
  }

  lemma PlainField(k: string, v: Value)
    requires k != REF
    ensures FieldRefs(k, v) == Refs(v)
  {
  }

  lemma RefAlone(ref: string, r: Ref)
    requires ParseRef(ref) == Some(r)
    ensures Refs(Obj(map[REF := Str(ref)])) == {r}
  {
    hide ParseRef, REF;
    var fields := map[REF := Str(ref)];
    assert FieldRefs(REF, fields[REF]) == {r};
  }

  lemma ExampleIsKept(example: Value, schema: string, tag: string)
    ensures var doc := WithExample(example, schema, tag);
      KeptPaths(doc.paths, Stable) == doc.paths && KeptPaths(doc.paths, Tagged(tag)) == doc.paths
  {
    BothKeep(example, tag);
    hide Exemplified, Stable, Tagged;
    var item := WithExample(example, schema, tag).paths["/"];
    assert "get" in item;
    assert KeptOps(item, Stable) == item && KeptOps(item, Tagged(tag)) == item;
  }

  lemma BothKeep(example: Value, tag: string)
    ensures var op := Exemplified(example, tag); op.Obj? && Stable(op.fields) && Tagged(tag)(op.fields)
  {
    assert EXAMPLE[0] == 'e' && STABILITY[0] == 'x' && TAGS[0] == 't';
    hide EXAMPLE, STABILITY, TAGS;
    assert Str(tag) in [Str(tag)];
  }

  lemma ExampleRefs(example: Value, schema: string, tag: string)
    ensures PathRefs(WithExample(example, schema, tag).paths) == Refs(example)
  {
    assert EXAMPLE[0] == 'e' && REF[0] == '$' && TAGS[0] == 't';
    assert EXAMPLE != REF && TAGS != REF && TAGS != EXAMPLE;
    hide EXAMPLE, REF, TAGS, ParseRef;
    var paths := WithExample(example, schema, tag).paths;
    var op := Exemplified(example, tag);
    assert Refs(Str(tag)) == {};
    assert Refs(Arr([Str(tag)])) == {};
    PlainField(TAGS, Arr([Str(tag)]));
    PlainField(EXAMPLE, example);
    TwoFields(TAGS, Arr([Str(tag)]), EXAMPLE, example);
    PlainField("get", op);
    hide Refs, FieldRefs, Exemplified;
    assert forall r :: r in Refs(example) ==> r in FieldRefs("get", paths["/"]["get"]);
  }

  /** Where every operation has the tag, what is published under it has the shape of the whole. */
  lemma PublishedShape(doc: Doc, tag: string)
    requires KeptPaths(doc.paths, Stable) == KeptPaths(doc.paths, Tagged(tag)) == doc.paths
    ensures Shape(Filtered(doc, Tagged(tag))) == Shape(doc)
  {
    PublishedThenStable(doc, tag);
    KeptPathsCompose(doc.paths, Tagged(tag), Stable);
    hide KeptPaths, Reached, PathRefs, SecurityNames, Strip, ToValue, Tagged, Stable;
  }

  /**
   Two documents that differ only in an example have two shapes when one example refers to a schema; so have what
   is published of them.
   */
  lemma ExampleReferenceMovesShape(schema: string, ref: string, tag: string)
    requires ParseRef(ref) == Some(Ref(Schemas, schema))
    ensures var a, b := WithExample(Obj(map[REF := Str(ref)]), schema, tag), WithExample(Null, schema, tag);
      && SameDoc(a, b) && Shape(a) != Shape(b)
      && Shape(Filtered(a, Tagged(tag))) != Shape(Filtered(b, Tagged(tag)))
  {
    hide ParseRef, PathRefs, Exemplified;
    var r := Ref(Schemas, schema);
    var example := Obj(map[REF := Str(ref)]);
    RefAlone(ref, r);
    assert Refs(Null) == {};
    var a, b := WithExample(example, schema, tag), WithExample(Null, schema, tag);
    ExampleIsKept(example, schema, tag);
    ExampleIsKept(Null, schema, tag);
    ExampleRefs(example, schema, tag);
    ExampleRefs(Null, schema, tag);
    PublishedShape(a, tag);
    PublishedShape(b, tag);
    hide Shape, Filtered, Tagged;
    ReachedIsLeast({r}, a.schemas, {});
    ReachedIsLeast({}, b.schemas, {});
    ExamplesAreSame(example, schema, tag);
    assert schema in a.schemas && r in Followed(a) && r !in Followed(b);
    SameNamesByKept(a, b);
    hide SameNames, SameDoc, Followed, Uses, KeptPaths;
    AnnotationsMoveShapeExactly(a, b);
  }

  lemma ExamplesAreSame(example: Value, schema: string, tag: string)
    ensures SameDoc(WithExample(example, schema, tag), WithExample(Null, schema, tag))
  {
    assert SameBut(Obj(map[]), Obj(map[]), false);
    hide SameBut, SameItem, Exemplified;
    ExampleItems(example, tag);
    var a, b := WithExample(example, schema, tag), WithExample(Null, schema, tag);
    OneItem("/", a.paths["/"], b.paths["/"], a.schemas);
  }

  lemma OneItem(path: string, a: Item, b: Item, schemas: map<string, Value>)
    requires SameItem(a, b) && SameAll(schemas, schemas)
    ensures SameDoc(Doc(Null, map[path := a], schemas, map[]), Doc(Null, map[path := b], schemas, map[]))
  {
    assert SameBut(Null, Null, false);
    hide SameBut, SameItem;
  }

  lemma ExampleItems(example: Value, tag: string)
    ensures SameItem(map["get" := Exemplified(example, tag)], map["get" := Exemplified(Null, tag)])
  {
    assert EXAMPLE in ANNOTATIONS;
    hide ANNOTATIONS, EXAMPLE, TAGS;
    assert "get" !in NAME_MAPS;
    hide NAME_MAPS;
    assert SameBut(Str(tag), Str(tag), false);
    assert SameBut(Arr([Str(tag)]), Arr([Str(tag)]), false);
    assert SameBut(Arr([Str(tag)]), Arr([Str(tag)]), true);
    var a, b := Exemplified(example, tag), Exemplified(Null, tag);
    assert SameBut(a, b, false);
    hide SameBut, Exemplified;
  }
}
