/**
 `_paired_rows`: which row of a draft table answers to which row of an expected table. Rows pair by
 their `when` where both spell it alike; of the outcomes left over, the only one going on to a stage
 pairs with the only one going on, and the only one ending with the only one ending.
 */
module Pairing {
  import opened Options
  import opened Basics
  import opened Bundles
  import opened Ordering

  /** The fact a chaining table's rows test when it reads no `matches`. */
  const CHAIN_INPUT := "outcome"

  /** The row tests the outcome and nothing else. */
  predicate Verb(r: Row) {
    |r.when| == 1 && r.when[0].0 == CHAIN_INPUT
  }

  type Pair = (Slot, Slot)

  /** `{when: row}`: the last row of a `when` wins. */
  function ByWhen(rows: seq<Row>): (m: map<When, Slot>)
    ensures forall w :: w in m ==> m[w].pos < |rows| && rows[m[w].pos] == m[w].row && m[w].row.when == w
    ensures forall i :: 0 <= i < |rows| ==> rows[i].when in m && i <= m[rows[i].when].pos
  {
    if rows == [] then map[]
    else
      var n := |rows| - 1;
      var front := ByWhen(rows[..n]);
      assert forall i :: 0 <= i < n ==> rows[..n][i] == rows[i] && rows[i].when in front;
      front[rows[n].when := Slot(n, rows[n])]
  }

  /** What the literal pass leaves: its pairs, the draft rows and the expected rows left over. */
  datatype Literal = Literal(out: seq<Pair>, left: seq<Slot>, rest: map<When, Slot>)

  /** The literal pass over the sorted draft rows, each expected row popped once. */
  function TakeLiteral(sorted: seq<Slot>, rest: map<When, Slot>): Literal {
    if sorted == [] then Literal([], [], rest)
    else
      var x := sorted[0];
      if x.row.when in rest then
        var t := TakeLiteral(sorted[1..], rest - {x.row.when});
        Literal([(x, rest[x.row.when])] + t.out, t.left, t.rest)
      else
        var t := TakeLiteral(sorted[1..], rest);
        Literal(t.out, [x] + t.left, t.rest)
  }

  predicate LeftOver(x: Slot, ix: Index, on: bool) {
    Verb(x.row) && RoutesOn(x.row.next, ix) == on
  }

  function DraftLeft(left: seq<Slot>, ix: Index, on: bool): seq<Slot> {
    if left == [] then []
    else (if LeftOver(left[0], ix, on) then [left[0]] else []) + DraftLeft(left[1..], ix, on)
  }

  function ExpectedLeft(rest: map<When, Slot>, ix: Index, on: bool): set<Slot> {
    set w | w in rest && LeftOver(rest[w], ix, on) :: rest[w]
  }

  function Only(s: set<Slot>): (x: Slot)
    requires |s| == 1
    ensures s == {x}
  {
    OnlyOne(s);
    var x :| x in s;
    x
  }

  lemma OnlyOne(s: set<Slot>)
    requires |s| == 1
    ensures exists x :: s == {x}
    ensures forall x, y :: x in s && y in s ==> x == y
  {
    var x :| x in s;
    assert |s - {x}| == 0;
    assert s == {x};
  }

  function LeftPair(l: Literal, d: Index, e: Index, on: bool): seq<Pair> {
    var ds := DraftLeft(l.left, d, on);
    var es := ExpectedLeft(l.rest, e, on);
    if |ds| == 1 && |es| == 1 then [(ds[0], Only(es))] else []
  }

  function PairedRows(drows: seq<Row>, erows: seq<Row>, d: Index, e: Index): seq<Pair> {
    var l := TakeLiteral(Sort(Slots(drows)), ByWhen(erows));
    l.out + LeftPair(l, d, e, true) + LeftPair(l, d, e, false)
  }

  lemma LeftPairBy(l: Literal, d: Index, e: Index, on: bool)
    ensures var ds, es := DraftLeft(l.left, d, on), ExpectedLeft(l.rest, e, on);
      LeftPair(l, d, e, on) == if |ds| == 1 && |es| == 1 then [(ds[0], Only(es))] else []
  {
    hide DraftLeft, ExpectedLeft;
  }

  lemma PairedRowsBy(drows: seq<Row>, erows: seq<Row>, d: Index, e: Index)
    ensures var l := TakeLiteral(Sort(Slots(drows)), ByWhen(erows));
      PairedRows(drows, erows, d, e) == l.out + LeftPair(l, d, e, true) + LeftPair(l, d, e, false)
  {
    hide Sort, Slots, ByWhen, TakeLiteral, LeftPair;
  }

  /** The loop of the source, against the function above. */
  method PairRows(drows: seq<Row>, erows: seq<Row>, d: Index, e: Index) returns (out: seq<Pair>)
    ensures out == PairedRows(drows, erows, d, e)
  {
    hide Sort, Slots, ByWhen, DraftLeft, ExpectedLeft, LeftPair, PairedRows;
    var sorted := Sort(Slots(drows));
    var byWhen := ByWhen(erows);
    ghost var whole := TakeLiteral(sorted, byWhen);
    var left: seq<Slot> := [];
    out := [];
    var i := 0;
    while i < |sorted|
      invariant 0 <= i <= |sorted|
      invariant out + TakeLiteral(sorted[i..], byWhen).out == whole.out
      invariant left + TakeLiteral(sorted[i..], byWhen).left == whole.left
      invariant TakeLiteral(sorted[i..], byWhen).rest == whole.rest
    {
      var x := sorted[i];
      assert sorted[i..][1..] == sorted[i + 1..];
      if x.row.when in byWhen {
        out := out + [(x, byWhen[x.row.when])];
        byWhen := byWhen - {x.row.when};
      } else {
        left := left + [x];
      }
      i := i + 1;
    }
    var l := Literal(out, left, byWhen);
    assert sorted[i..] == [] && l == whole;
    var on := true;
    var turn := 0;
    while turn < 2
      invariant 0 <= turn <= 2 && on == (turn == 0)
      invariant out == l.out + (if turn > 0 then LeftPair(l, d, e, true) else [])
                             + (if turn > 1 then LeftPair(l, d, e, false) else [])
    {
      var ds := DraftLeft(left, d, on);
      var es := ExpectedLeft(byWhen, e, on);
      LeftPairBy(l, d, e, on);
      if |ds| == 1 && |es| == 1 {
        out := out + [(ds[0], Only(es))];
      }
      on := false;
      turn := turn + 1;
    }
    PairedRowsBy(drows, erows, d, e);
  }

  // ---- what the pairing promises

  /** Each row of either table is used at most once. */
  ghost predicate UsedOnce(out: seq<Pair>) {
    forall i, j :: 0 <= i < j < |out| ==> out[i].0 != out[j].0 && out[i].1 != out[j].1
  }

  ghost predicate FitPair(p: Pair, d: Index, e: Index) {
    p.0.row.when == p.1.row.when
    || (Verb(p.0.row) && Verb(p.1.row) && RoutesOn(p.0.row.next, d) == RoutesOn(p.1.row.next, e))
  }

  lemma {:induction false} LiteralFacts(sorted: seq<Slot>, rest: map<When, Slot>)
    requires NoDuplicates(sorted)
    requires forall w :: w in rest ==> rest[w].row.when == w
    ensures var l := TakeLiteral(sorted, rest);
      && NoDuplicates(l.left)
      && (forall x :: x in l.left ==> x in sorted)
      && (forall p :: p in l.out ==> p.0 in sorted && p.0 !in l.left && p.0.row.when == p.1.row.when
                                     && p.1.row.when in rest && p.1 == rest[p.1.row.when])
      && (forall p :: p in l.out ==> p.1.row.when !in l.rest)
      && (forall w :: w in l.rest ==> w in rest && l.rest[w] == rest[w])
      && UsedOnce(l.out)
  {
    if sorted != [] {
      var x := sorted[0];
      var tail := sorted[1..];
      assert forall y :: y in tail ==> y in sorted && y != x;
      if x.row.when in rest {
        LiteralFacts(tail, rest - {x.row.when});
      } else {
        LiteralFacts(tail, rest);
        assert x !in TakeLiteral(tail, rest).left;
      }
    }
  }

  lemma {:induction false} DraftLeftFacts(left: seq<Slot>, ix: Index, on: bool)
    ensures forall x :: x in DraftLeft(left, ix, on) <==> x in left && LeftOver(x, ix, on)
  {
    if left != [] {
      DraftLeftFacts(left[1..], ix, on);
    }
  }

  lemma SortedSlots(rows: seq<Row>)
    ensures NoDuplicates(Sort(Slots(rows)))
    ensures |Sort(Slots(rows))| == |rows|
    ensures forall x :: x in Sort(Slots(rows)) <==> x.pos < |rows| && x.row == rows[x.pos]
  {
    var s := Slots(rows);
    SortSorts(s);
    forall x ensures x in Sort(s) <==> x.pos < |rows| && x.row == rows[x.pos] {
      SortMembers(s, x);
      if x.pos < |rows| && x.row == rows[x.pos] { assert s[x.pos] == x; }
    }
    NoDuplicatesByMultiset(s, Sort(s));
  }

  /** Every pair is of two rows of the two tables, fits, and no row is used twice. */
  lemma PairedRowsFacts(drows: seq<Row>, erows: seq<Row>, d: Index, e: Index)
    ensures var out := PairedRows(drows, erows, d, e);
      && UsedOnce(out)
      && (forall p :: p in out ==>
            && p.0.pos < |drows| && p.0.row == drows[p.0.pos]
            && p.1.pos < |erows| && p.1.row == erows[p.1.pos]
            && FitPair(p, d, e))
  {
    var sorted, rest := Sort(Slots(drows)), ByWhen(erows);
    SortedSlots(drows);
    LiteralFacts(sorted, rest);
    var l := TakeLiteral(sorted, rest);
    LeftPairFacts(l, d, e, true);
    LeftPairFacts(l, d, e, false);
    var a, b := LeftPair(l, d, e, true), LeftPair(l, d, e, false);
    UsedOnceJoin(l, d, e, a, b);
    forall p | p in PairedRows(drows, erows, d, e)
      ensures p.0 in sorted && p.1.pos < |erows| && p.1.row == erows[p.1.pos] && FitPair(p, d, e)
    {
      assert p in l.out || p in a || p in b;
    }
  }

  ghost predicate FromLeft(p: Pair, l: Literal, d: Index, e: Index, on: bool) {
    && p.0 in l.left && LeftOver(p.0, d, on)
    && p.1.row.when in l.rest && l.rest[p.1.row.when] == p.1 && LeftOver(p.1, e, on)
  }

  lemma LeftPairFacts(l: Literal, d: Index, e: Index, on: bool)
    requires forall w :: w in l.rest ==> l.rest[w].row.when == w
    ensures |LeftPair(l, d, e, on)| <= 1
    ensures forall p :: p in LeftPair(l, d, e, on) ==> FromLeft(p, l, d, e, on)
  {
    DraftLeftFacts(l.left, d, on);
    var ds, es := DraftLeft(l.left, d, on), ExpectedLeft(l.rest, e, on);
    if |ds| == 1 && |es| == 1 {
      assert ds[0] in ds;
      assert Only(es) in es;
    }
  }

  lemma UsedOnceJoin(l: Literal, d: Index, e: Index, a: seq<Pair>, b: seq<Pair>)
    requires UsedOnce(l.out) && |a| <= 1 && |b| <= 1
    requires forall p :: p in l.out ==> p.0 !in l.left && p.1.row.when !in l.rest
    requires forall p :: p in a ==> FromLeft(p, l, d, e, true)
    requires forall p :: p in b ==> FromLeft(p, l, d, e, false)
    ensures UsedOnce(l.out + a + b)
  {
    var all := l.out + a + b;
    var n := |l.out|;
    forall i, j | 0 <= i < j < |all| ensures all[i].0 != all[j].0 && all[i].1 != all[j].1 {
      assert i < n ==> all[i] == l.out[i] && all[i] in l.out;
      assert n <= i < n + |a| ==> all[i] in a;
      assert j < n ==> all[j] == l.out[j];
      assert n <= j < n + |a| ==> all[j] in a;
      assert n + |a| <= j ==> all[j] in b;
    }
  }

  // ---- which rows pair, in the rows' own fields

  ghost predicate FirstOf(rows: seq<Row>, i: nat)
    requires i < |rows|
  {
    forall k: nat :: k < i ==> rows[k].when != rows[i].when
  }

  ghost predicate LastOf(rows: seq<Row>, i: nat)
    requires i < |rows|
  {
    forall k: nat :: i < k < |rows| ==> rows[k].when != rows[i].when
  }

  ghost predicate Spelt(rows: seq<Row>, w: When) {
    exists k :: 0 <= k < |rows| && rows[k].when == w
  }

  /** The row tests the outcome and nothing else; with `on` it goes on to a stage, without it ends. */
  ghost predicate OutcomeRow(r: Row, ix: Index, on: bool) {
    && |r.when| == 1 && r.when[0].0 == "outcome"
    && (on <==> r.next.Some? && |r.next.value| > 0 && r.next.value !in ix.terminals)
  }

  /** An outcome of the draft table that the expected table does not spell, or that another row took. */
  ghost predicate DraftSpare(drows: seq<Row>, erows: seq<Row>, d: Index, on: bool, i: nat) {
    i < |drows| && OutcomeRow(drows[i], d, on) && !(FirstOf(drows, i) && Spelt(erows, drows[i].when))
  }

  /** An outcome of the expected table, last of its `when`, that the draft table does not spell. */
  ghost predicate ExpectedSpare(drows: seq<Row>, erows: seq<Row>, e: Index, on: bool, j: nat) {
    j < |erows| && OutcomeRow(erows[j], e, on) && LastOf(erows, j) && !Spelt(drows, erows[j].when)
  }

  /** Each is the only one left over of its table that goes on, or that ends. */
  ghost predicate OnlyOnes(drows: seq<Row>, erows: seq<Row>, d: Index, e: Index, on: bool, i: nat, j: nat) {
    && DraftSpare(drows, erows, d, on, i) && (forall k: nat :: DraftSpare(drows, erows, d, on, k) ==> k == i)
    && ExpectedSpare(drows, erows, e, on, j) && (forall k: nat :: ExpectedSpare(drows, erows, e, on, k) ==> k == j)
  }

  /** Another slot of its `when` stands before it in the table. */
  ghost predicate Preceded(s: seq<Slot>, x: Slot) {
    exists y :: y in s && y.row.when == x.row.when && y.pos < x.pos
  }

  /** The literal pass, slot by slot. */
  lemma {:induction false} LiteralExactly(sorted: seq<Slot>, rest: map<When, Slot>)
    requires Stable(sorted) && forall w :: w in rest ==> rest[w].row.when == w
    ensures var l := TakeLiteral(sorted, rest);
      && (forall p :: p in l.out <==> p.0 in sorted && !Preceded(sorted, p.0) && p.0.row.when in rest
                                      && p.1 == rest[p.0.row.when])
      && (forall x :: x in l.left <==> x in sorted && (Preceded(sorted, x) || x.row.when !in rest))
  {
    hide Preceded, Stable;
    if sorted == [] {
      NonePreceded();
    } else {
      var x := sorted[0];
      var tail := sorted[1..];
      var inner := if x.row.when in rest then rest - {x.row.when} else rest;
      assert sorted == [x] + tail;
      StableTail(sorted);
      LiteralExactly(tail, inner);
      forall y | y in sorted
        ensures Preceded(sorted, y) <==> y in tail && (y.row.when == x.row.when || Preceded(tail, y))
      {
        HeadPrecedes(sorted, y);
      }
    }
  }

  /** What is still to pop is what no draft row spells. */
  lemma {:induction false} LiteralRest(sorted: seq<Slot>, rest: map<When, Slot>)
    ensures var l := TakeLiteral(sorted, rest);
      && (forall w :: w in l.rest <==> w in rest && forall x :: x in sorted ==> x.row.when != w)
      && (forall w :: w in l.rest ==> l.rest[w] == rest[w])
  {
    if sorted != [] {
      assert sorted == [sorted[0]] + sorted[1..];
      LiteralRest(sorted[1..], if sorted[0].row.when in rest then rest - {sorted[0].row.when} else rest);
    }
  }

  lemma NonePreceded()
    ensures forall x :: !Preceded([], x)
  {
  }

  lemma StableTail(s: seq<Slot>)
    requires Stable(s) && s != []
    ensures Stable(s[1..])
    ensures s[0] !in s[1..]
  {
  }

  lemma HeadPrecedes(sorted: seq<Slot>, y: Slot)
    requires sorted != [] && Stable(sorted) && y in sorted
    ensures Preceded(sorted, y) <==>
      y in sorted[1..] && (y.row.when == sorted[0].row.when || Preceded(sorted[1..], y))
  {
    var x, tail := sorted[0], sorted[1..];
    assert sorted == [x] + tail;
    if y in tail && y.row.when == x.row.when {
      assert x in sorted && x.pos < y.pos;
    }
    forall z | z in sorted && z.row.when == x.row.when ensures x.pos <= z.pos {
    }
  }

  /** The literal pass, row by row: the first draft row of a `when` takes the last expected one. */
  lemma LeftExactly(drows: seq<Row>, erows: seq<Row>)
    ensures var l := TakeLiteral(Sort(Slots(drows)), ByWhen(erows));
      && NoDuplicates(l.left)
      && (forall p :: p in l.out <==>
            && p.0.pos < |drows| && p.0.row == drows[p.0.pos] && FirstOf(drows, p.0.pos)
            && p.1.pos < |erows| && p.1.row == erows[p.1.pos] && LastOf(erows, p.1.pos)
            && p.0.row.when == p.1.row.when)
      && (forall x :: x in l.left <==>
            && x.pos < |drows| && x.row == drows[x.pos]
            && !(FirstOf(drows, x.pos) && Spelt(erows, x.row.when)))
      && (forall w :: w in l.rest ==> l.rest[w].row.when == w)
      && (forall y: Slot :: y.row.when in l.rest && l.rest[y.row.when] == y <==>
            && y.pos < |erows| && y.row == erows[y.pos] && LastOf(erows, y.pos) && !Spelt(drows, y.row.when))
  {
    hide Sort, Slots, ByWhen, TakeLiteral, Stable, FirstOf, LastOf, Spelt, Preceded, UsedOnce;
    var sorted, rest := Sort(Slots(drows)), ByWhen(erows);
    SortedSlots(drows);
    SortedStable(drows);
    LiteralFacts(sorted, rest);
    LiteralExactly(sorted, rest);
    LiteralRest(sorted, rest);
    forall x | x in sorted ensures Preceded(sorted, x) <==> !FirstOf(drows, x.pos) {
      PrecededExactly(drows, x);
    }
    forall y: Slot ensures y.row.when in rest && rest[y.row.when] == y <==>
      y.pos < |erows| && y.row == erows[y.pos] && LastOf(erows, y.pos)
    {
      LastExactly(erows, y);
    }
    forall w ensures w in rest <==> Spelt(erows, w) {
      SpeltExactly(erows, w);
    }
    forall w ensures (exists x :: x in sorted && x.row.when == w) <==> Spelt(drows, w) {
      SlotSpelt(drows, w);
    }
  }

  lemma SortedStable(rows: seq<Row>)
    ensures Stable(Sort(Slots(rows)))
  {
    SortIsStable(Slots(rows));
  }

  lemma PrecededExactly(rows: seq<Row>, x: Slot)
    requires x.pos < |rows| && x.row == rows[x.pos]
    ensures Preceded(Sort(Slots(rows)), x) <==> !FirstOf(rows, x.pos)
  {
    hide Sort, Slots;
    SortedSlots(rows);
    if !FirstOf(rows, x.pos) {
      var k: nat :| k < x.pos && rows[k].when == x.row.when;
      assert Slot(k, rows[k]) in Sort(Slots(rows));
    }
  }

  lemma LastExactly(rows: seq<Row>, y: Slot)
    ensures y.row.when in ByWhen(rows) && ByWhen(rows)[y.row.when] == y <==>
      y.pos < |rows| && y.row == rows[y.pos] && LastOf(rows, y.pos)
  {
    var m := ByWhen(rows);
    if y.pos < |rows| && y.row == rows[y.pos] && LastOf(rows, y.pos) {
      assert y.row.when in m && y.pos <= m[y.row.when].pos;
    }
  }

  lemma SpeltExactly(rows: seq<Row>, w: When)
    ensures w in ByWhen(rows) <==> Spelt(rows, w)
  {
    if w in ByWhen(rows) {
      assert rows[ByWhen(rows)[w].pos].when == w;
    }
  }

  lemma SlotSpelt(rows: seq<Row>, w: When)
    ensures (exists x :: x in Sort(Slots(rows)) && x.row.when == w) <==> Spelt(rows, w)
  {
    hide Sort, Slots;
    SortedSlots(rows);
    if Spelt(rows, w) {
      var k: nat :| k < |rows| && rows[k].when == w;
      assert Slot(k, rows[k]) in Sort(Slots(rows));
    }
  }

  lemma LeftOverExactly(x: Slot, ix: Index, on: bool)
    ensures LeftOver(x, ix, on) <==> OutcomeRow(x.row, ix, on)
  {
    assert x.row.next.Some? ==> (x.row.next.value != "" <==> |x.row.next.value| > 0);
  }

  /** Rows left over pair exactly when each is the only one of its side. */
  lemma LeftPairExactly(l: Literal, d: Index, e: Index, on: bool, p: Pair)
    requires NoDuplicates(l.left) && forall w :: w in l.rest ==> l.rest[w].row.when == w
    ensures p in LeftPair(l, d, e, on) <==>
      && (forall x :: x in l.left && LeftOver(x, d, on) <==> x == p.0)
      && (forall y: Slot :: y.row.when in l.rest && l.rest[y.row.when] == y && LeftOver(y, e, on) <==> y == p.1)
  {
    hide LeftOver;
    DraftLeftFacts(l.left, d, on);
    DraftLeftOnce(l.left, d, on);
    var ds, es := DraftLeft(l.left, d, on), ExpectedLeft(l.rest, e, on);
    hide DraftLeft;
    forall y: Slot ensures y in es <==> y.row.when in l.rest && l.rest[y.row.when] == y && LeftOver(y, e, on) {
    }
    if |ds| == 1 && |es| == 1 {
      assert ds == [ds[0]] && es == {Only(es)};
      assert LeftPair(l, d, e, on) == [(ds[0], Only(es))];
    }
    if (forall x :: x in ds <==> x == p.0) && (forall y :: y in es <==> y == p.1) {
      OneAtMost(ds, p.0);
      assert p.0 in ds;
      assert ds == [p.0] && es == {p.1};
      assert Only(es) in es;
    }
  }

  lemma {:induction false} DraftLeftOnce(left: seq<Slot>, ix: Index, on: bool)
    requires NoDuplicates(left)
    ensures NoDuplicates(DraftLeft(left, ix, on))
  {
    hide LeftOver;
    if left != [] {
      assert left == [left[0]] + left[1..];
      DraftLeftOnce(left[1..], ix, on);
      DraftLeftFacts(left[1..], ix, on);
    }
  }

  lemma OnlyOnesExactly(drows: seq<Row>, erows: seq<Row>, d: Index, e: Index, on: bool, i: nat, j: nat)
    requires i < |drows| && j < |erows|
    ensures (Slot(i, drows[i]), Slot(j, erows[j])) in LeftPair(TakeLiteral(Sort(Slots(drows)), ByWhen(erows)), d, e, on)
       <==> OnlyOnes(drows, erows, d, e, on, i, j)
  {
    LeftExactly(drows, erows);
    hide *;
    var l := TakeLiteral(Sort(Slots(drows)), ByWhen(erows));
    var x, y := Slot(i, drows[i]), Slot(j, erows[j]);
    LeftPairExactly(l, d, e, on, (x, y));
    DraftSpareExactly(drows, erows, d, on, l.left, i);
    ExpectedSpareExactly(drows, erows, e, on, l.rest, j);
    OnlyOnesBy(drows, erows, d, e, on, i, j);
  }

  lemma OnlyOnesBy(drows: seq<Row>, erows: seq<Row>, d: Index, e: Index, on: bool, i: nat, j: nat)
    ensures OnlyOnes(drows, erows, d, e, on, i, j) <==>
      && DraftSpare(drows, erows, d, on, i) && (forall k: nat :: DraftSpare(drows, erows, d, on, k) ==> k == i)
      && ExpectedSpare(drows, erows, e, on, j) && (forall k: nat :: ExpectedSpare(drows, erows, e, on, k) ==> k == j)
  {
  }

  lemma SpareIsRow(drows: seq<Row>, erows: seq<Row>, d: Index, e: Index, on: bool, k: nat)
    ensures DraftSpare(drows, erows, d, on, k) ==> k < |drows|
    ensures ExpectedSpare(drows, erows, e, on, k) ==> k < |erows|
  {
  }

  lemma DraftSpareExactly(drows: seq<Row>, erows: seq<Row>, d: Index, on: bool, left: seq<Slot>, i: nat)
    requires i < |drows|
    requires forall x :: x in left <==>
      x.pos < |drows| && x.row == drows[x.pos] && !(FirstOf(drows, x.pos) && Spelt(erows, x.row.when))
    ensures (forall x :: x in left && LeftOver(x, d, on) <==> x == Slot(i, drows[i])) <==>
      DraftSpare(drows, erows, d, on, i) && forall k: nat :: DraftSpare(drows, erows, d, on, k) ==> k == i
  {
    hide LeftOver, OutcomeRow, FirstOf, Spelt;
    forall x: Slot ensures x in left && LeftOver(x, d, on) <==>
      x.pos < |drows| && x.row == drows[x.pos] && DraftSpare(drows, erows, d, on, x.pos)
    {
      LeftOverExactly(x, d, on);
    }
    hide DraftSpare;
    var own := Slot(i, drows[i]);
    if forall x :: x in left && LeftOver(x, d, on) <==> x == own {
      assert own in left && LeftOver(own, d, on);
      forall k: nat | DraftSpare(drows, erows, d, on, k) ensures k == i {
        SpareIsRow(drows, erows, d, d, on, k);
        assert Slot(k, drows[k]) in left;
      }
    }
  }

  lemma ExpectedSpareExactly(drows: seq<Row>, erows: seq<Row>, e: Index, on: bool, rest: map<When, Slot>, j: nat)
    requires j < |erows|
    requires forall y: Slot :: y.row.when in rest && rest[y.row.when] == y <==>
      y.pos < |erows| && y.row == erows[y.pos] && LastOf(erows, y.pos) && !Spelt(drows, y.row.when)
    ensures (forall y: Slot :: y.row.when in rest && rest[y.row.when] == y && LeftOver(y, e, on)
                               <==> y == Slot(j, erows[j])) <==>
      ExpectedSpare(drows, erows, e, on, j) && forall k: nat :: ExpectedSpare(drows, erows, e, on, k) ==> k == j
  {
    hide LeftOver, OutcomeRow, LastOf, Spelt;
    forall y: Slot ensures y.row.when in rest && rest[y.row.when] == y && LeftOver(y, e, on) <==>
      y.pos < |erows| && y.row == erows[y.pos] && ExpectedSpare(drows, erows, e, on, y.pos)
    {
      LeftOverExactly(y, e, on);
    }
    hide ExpectedSpare;
    var own := Slot(j, erows[j]);
    if forall y: Slot :: y.row.when in rest && rest[y.row.when] == y && LeftOver(y, e, on) <==> y == own {
      assert own.row.when in rest && rest[own.row.when] == own && LeftOver(own, e, on);
      forall k: nat | ExpectedSpare(drows, erows, e, on, k) ensures k == j {
        SpareIsRow(drows, erows, e, e, on, k);
        var y := Slot(k, erows[k]);
        assert y.row.when in rest && rest[y.row.when] == y && LeftOver(y, e, on);
      }
    }
  }

  /**
   Two rows are paired exactly when they spell their `when` alike, the first of the draft table with the last of
   the expected one; or when each is the only outcome left over of its table that goes on, or the only one that ends.
   */
  lemma PairedExactly(drows: seq<Row>, erows: seq<Row>, d: Index, e: Index, i: nat, j: nat)
    requires i < |drows| && j < |erows|
    ensures (Slot(i, drows[i]), Slot(j, erows[j])) in PairedRows(drows, erows, d, e) <==>
      || (drows[i].when == erows[j].when && FirstOf(drows, i) && LastOf(erows, j))
      || OnlyOnes(drows, erows, d, e, true, i, j)
      || OnlyOnes(drows, erows, d, e, false, i, j)
  {
    hide Sort, Slots, ByWhen, TakeLiteral, LeftPair, OnlyOnes, PairedRows, FirstOf, LastOf, Spelt;
    PairedRowsBy(drows, erows, d, e);
    LeftExactly(drows, erows);
    OnlyOnesExactly(drows, erows, d, e, true, i, j);
    OnlyOnesExactly(drows, erows, d, e, false, i, j);
  }

  /** A `when` both tables spell is paired literally. */
  lemma LiteralPairs(drows: seq<Row>, erows: seq<Row>, d: Index, e: Index, i: nat, j: nat)
    requires i < |drows| && j < |erows| && drows[i].when == erows[j].when
    requires DistinctWhens(drows) && DistinctWhens(erows)
    ensures (Slot(i, drows[i]), Slot(j, erows[j])) in PairedRows(drows, erows, d, e)
  {
    hide PairedRows, OnlyOnes;
    PairedExactly(drows, erows, d, e, i, j);
  }

  /** On tables whose `when`s are distinct, swapping the two bundles swaps every pair. */
  lemma PairingIsSymmetric(drows: seq<Row>, erows: seq<Row>, d: Index, e: Index)
    requires DistinctWhens(drows) && DistinctWhens(erows)
    ensures forall p: Pair :: p in PairedRows(drows, erows, d, e) <==> (p.1, p.0) in PairedRows(erows, drows, e, d)
  {
    hide PairedRows, OnlyOnes, FitPair, UsedOnce;
    PairedRowsFacts(drows, erows, d, e);
    PairedRowsFacts(erows, drows, e, d);
    forall p: Pair ensures p in PairedRows(drows, erows, d, e) <==> (p.1, p.0) in PairedRows(erows, drows, e, d) {
      if p in PairedRows(drows, erows, d, e) || (p.1, p.0) in PairedRows(erows, drows, e, d) {
        var i, j := p.0.pos, p.1.pos;
        PairedExactly(drows, erows, d, e, i, j);
        PairedExactly(erows, drows, e, d, j, i);
        OnlyOnesSwap(drows, erows, d, e, true, i, j);
        OnlyOnesSwap(drows, erows, d, e, false, i, j);
      }
    }
  }

  lemma OnlyOnesSwap(drows: seq<Row>, erows: seq<Row>, d: Index, e: Index, on: bool, i: nat, j: nat)
    requires DistinctWhens(drows) && DistinctWhens(erows)
    ensures OnlyOnes(drows, erows, d, e, on, i, j) <==> OnlyOnes(erows, drows, e, d, on, j, i)
  {
    hide OutcomeRow, Spelt;
    forall k: nat ensures DraftSpare(drows, erows, d, on, k) <==> ExpectedSpare(erows, drows, d, on, k) {
    }
    forall k: nat ensures DraftSpare(erows, drows, e, on, k) <==> ExpectedSpare(drows, erows, e, on, k) {
    }
  }
}
