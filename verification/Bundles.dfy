/**
 A process bundle as `_index` reads it: the trigger, the selection table, the chaining table of
 each stage, the stages with their steps, the task kinds and the terminals.
 */
module Bundles {
  import opened Options

  type Name = string

  /** A row's `when` as `_when_key` spells it: its (field, value) pairs in order. */
  type When = seq<(string, string)>

  /** One row of a table; `next` is the row's `then`. */
  datatype Row = Row(when: When, next: Option<Name>)

  datatype Table = Table(matches: seq<string>, rows: seq<Row>)

  /** One step of a stage; `excludes` is None when the step has no such key. */
  datatype Step = Step(
    id: string,
    kind: string,
    audience: Option<string>,
    taskKind: Name,
    accepts: seq<string>,
    reasonRequired: seq<string>,
    deadline: Option<int>,
    excludes: Option<seq<Name>>)

  datatype TaskKind = TaskKind(accepts: seq<string>, reasonRequired: seq<string>)

  datatype Trigger = Trigger(
    key: Option<string>,
    episode: seq<string>,
    requires_: seq<string>,
    stages: Option<seq<Name>>)

  datatype Index = Index(
    trigger: Trigger,
    sel: Option<Table>,
    chain: map<Name, Table>,
    stages: map<Name, seq<Step>>,
    kinds: map<Name, TaskKind>,
    terminals: set<Name>)

  /** Python's truth of a row's `then`. */
  predicate Truthy(next: Option<Name>) {
    next.Some? && next.value != ""
  }

  /** `_routes_on`: the row goes on to a stage; anything else ends the case. */
  predicate RoutesOn(next: Option<Name>, ix: Index) {
    Truthy(next) && next.value !in ix.terminals
  }

  /** The rows of the selection table, empty when there is none. */
  function SelRows(ix: Index): seq<Row> {
    if ix.sel.Some? then ix.sel.value.rows else []
  }

  /** The rows of the chaining table of stage `w`, empty when it has none. */
  function ChainRows(ix: Index, w: Name): seq<Row> {
    if w in ix.chain then ix.chain[w].rows else []
  }

  // ---- the tables themselves, apart from how they are looked up

  ghost function FirstRows(ix: Index): (r: seq<Row>)
    ensures r == SelRows(ix)
  {
    match ix.sel
    case Some(table) => table.rows
    case None => []
  }

  ghost function RowsBehind(ix: Index, w: Name): (r: seq<Row>)
    ensures r == ChainRows(ix, w)
  {
    if w !in ix.chain then [] else ix.chain[w].rows
  }

  ghost predicate DistinctWhens(rows: seq<Row>) {
    forall i, j :: 0 <= i < j < |rows| ==> rows[i].when != rows[j].when
  }

  ghost predicate Injective<K, V>(m: map<K, V>) {
    forall a, b :: a in m && b in m && m[a] == m[b] ==> a == b
  }

  /** The step bars someone from answering. */
  predicate Bars(s: Step) {
    s.excludes.Some? && s.excludes.value != []
  }

  // ---- renaming

  ghost predicate Injection(f: Name -> Name) {
    forall x, y :: f(x) == f(y) ==> x == y
  }

  function RenameNext(f: Name -> Name, next: Option<Name>): Option<Name> {
    if next.Some? then Some(f(next.value)) else None
  }

  function RenameRows(f: Name -> Name, rows: seq<Row>): (r: seq<Row>)
    ensures |r| == |rows|
    ensures forall i :: 0 <= i < |r| ==> r[i] == Row(rows[i].when, RenameNext(f, rows[i].next))
  {
    seq(|rows|, i requires 0 <= i < |rows| => Row(rows[i].when, RenameNext(f, rows[i].next)))
  }
}
