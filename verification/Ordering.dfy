/**
 The order Python gives `_when_key` tuples, and the stable sort of a table's rows by it.
 */
module Ordering {
  import opened Basics
  import opened Bundles

  // ---- the lexicographic order on strings, pairs of strings, and sequences of pairs

  predicate StringLess(a: string, b: string) {
    b != [] && (a == [] || a[0] < b[0] || (a[0] == b[0] && StringLess(a[1..], b[1..])))
  }

  predicate PairLess(a: (string, string), b: (string, string)) {
    StringLess(a.0, b.0) || (a.0 == b.0 && StringLess(a.1, b.1))
  }

  predicate WhenLess(a: When, b: When) {
    b != [] && (a == [] || PairLess(a[0], b[0]) || (a[0] == b[0] && WhenLess(a[1..], b[1..])))
  }

  lemma {:induction false} StringTrichotomy(a: string, b: string)
    ensures StringLess(a, b) || a == b || StringLess(b, a)
    ensures !(StringLess(a, b) && StringLess(b, a))
  {
    if a != [] && b != [] {
      StringTrichotomy(a[1..], b[1..]);
      assert a[0] == b[0] && a[1..] == b[1..] ==> a == [a[0]] + a[1..] == b;
    }
  }

  lemma {:induction false} StringTransitive(a: string, b: string, c: string)
    requires StringLess(a, b) && StringLess(b, c)
    ensures StringLess(a, c)
  {
    if a != [] && a[0] == b[0] == c[0] {
      StringTransitive(a[1..], b[1..], c[1..]);
    }
  }

  lemma PairOrder(a: (string, string), b: (string, string), c: (string, string))
    ensures PairLess(a, b) || a == b || PairLess(b, a)
    ensures !(PairLess(a, b) && PairLess(b, a))
    ensures PairLess(a, b) && PairLess(b, c) ==> PairLess(a, c)
  {
    StringTrichotomy(a.0, b.0);
    StringTrichotomy(a.1, b.1);
    if StringLess(a.0, b.0) && StringLess(b.0, c.0) {
      StringTransitive(a.0, b.0, c.0);
    }
    if StringLess(a.1, b.1) && StringLess(b.1, c.1) {
      StringTransitive(a.1, b.1, c.1);
    }
  }

  lemma {:induction false} WhenTrichotomy(a: When, b: When)
    ensures WhenLess(a, b) || a == b || WhenLess(b, a)
    ensures !(WhenLess(a, b) && WhenLess(b, a))
  {
    if a != [] && b != [] {
      PairOrder(a[0], b[0], a[0]);
      WhenTrichotomy(a[1..], b[1..]);
      assert a[0] == b[0] && a[1..] == b[1..] ==> a == [a[0]] + a[1..] == b;
    }
  }

  lemma {:induction false} WhenTransitive(a: When, b: When, c: When)
    requires WhenLess(a, b) && WhenLess(b, c)
    ensures WhenLess(a, c)
  {
    if a != [] {
      PairOrder(a[0], b[0], c[0]);
      if a[0] == b[0] == c[0] {
        WhenTransitive(a[1..], b[1..], c[1..]);
      }
    }
  }

  /** Of two strings alike up to `k`, the first letter apart decides; one that ends there comes first. */
  lemma {:induction false} StringLessAt(a: string, b: string, k: nat)
    requires k <= |a| && k <= |b| && a[..k] == b[..k]
    ensures k < |a| && k < |b| && a[k] != b[k] ==> (StringLess(a, b) <==> a[k] < b[k])
    ensures k == |a| ==> (StringLess(a, b) <==> |a| < |b|)
  {
    if k > 0 {
      assert a[0] == a[..k][0] == b[..k][0] == b[0];
      assert a[1..][..k - 1] == a[..k][1..] == b[..k][1..] == b[1..][..k - 1];
      StringLessAt(a[1..], b[1..], k - 1);
    }
  }

  /** Of two `when`s alike up to `k`, the first pair apart decides, by its field and then its value. */
  lemma {:induction false} WhenLessAt(a: When, b: When, k: nat)
    requires k <= |a| && k <= |b| && a[..k] == b[..k]
    ensures k < |a| && k < |b| && a[k].0 != b[k].0 ==> (WhenLess(a, b) <==> StringLess(a[k].0, b[k].0))
    ensures k < |a| && k < |b| && a[k].0 == b[k].0 && a[k].1 != b[k].1 ==>
      (WhenLess(a, b) <==> StringLess(a[k].1, b[k].1))
    ensures k == |a| ==> (WhenLess(a, b) <==> |a| < |b|)
  {
    if k > 0 {
      assert a[0] == a[..k][0] == b[..k][0] == b[0];
      assert a[1..][..k - 1] == a[..k][1..] == b[..k][1..] == b[1..][..k - 1];
      WhenLessAt(a[1..], b[1..], k - 1);
      PairOrder(a[0], b[0], a[0]);
    } else if k < |a| && k < |b| && a[k] != b[k] {
      StringTrichotomy(a[k].0, b[k].0);
    }
  }

  // ---- rows with their position in the table, and the stable sort

  /** A row with its position: what tells apart two rows that read alike. */
  datatype Slot = Slot(pos: nat, row: Row)

  function Slots(rows: seq<Row>): (r: seq<Slot>)
    ensures |r| == |rows|
    ensures forall i :: 0 <= i < |r| ==> r[i] == Slot(i, rows[i])
  {
    seq(|rows|, i requires 0 <= i < |rows| => Slot(i, rows[i]))
  }

  function Insert(x: Slot, s: seq<Slot>): seq<Slot> {
    if s == [] || !WhenLess(s[0].row.when, x.row.when) then [x] + s
    else [s[0]] + Insert(x, s[1..])
  }

  /** `sorted(rows, key=when)`: among equal keys the earlier row stays first. */
  function Sort(s: seq<Slot>): seq<Slot> {
    if s == [] then [] else Insert(s[0], Sort(s[1..]))
  }

  /** No later element is below an earlier one. */
  ghost predicate Ordered(s: seq<Slot>) {
    forall i, j :: 0 <= i < j < |s| ==> !WhenLess(s[j].row.when, s[i].row.when)
  }

  ghost predicate StrictlyOrdered(s: seq<Slot>) {
    forall i, j :: 0 <= i < j < |s| ==> WhenLess(s[i].row.when, s[j].row.when)
  }

  ghost predicate DistinctSlots(s: seq<Slot>) {
    forall i, j :: 0 <= i < j < |s| ==> s[i].row.when != s[j].row.when
  }

  lemma {:induction false} InsertKeeps(x: Slot, s: seq<Slot>)
    ensures multiset(Insert(x, s)) == multiset{x} + multiset(s)
    ensures Ordered(s) ==> Ordered(Insert(x, s))
  {
    hide WhenLess;
    if s == [] || !WhenLess(s[0].row.when, x.row.when) {
      if Ordered(s) {
        forall j | 0 <= j < |s| ensures !WhenLess(s[j].row.when, x.row.when) {
          if WhenLess(s[j].row.when, x.row.when) {
            WhenTrichotomy(s[0].row.when, s[j].row.when);
            if WhenLess(s[0].row.when, s[j].row.when) {
              WhenTransitive(s[0].row.when, s[j].row.when, x.row.when);
            }
          }
        }
      }
    } else {
      InsertKeeps(x, s[1..]);
      var r := Insert(x, s[1..]);
      assert s == [s[0]] + s[1..];
      if Ordered(s) {
        forall j | 0 <= j < |r| ensures !WhenLess(r[j].row.when, s[0].row.when) {
          assert r[j] in multiset(r);
          if r[j] == x {
            WhenTrichotomy(s[0].row.when, x.row.when);
          } else {
            assert r[j] in multiset(s[1..]);
            var k :| 0 <= k < |s[1..]| && s[1..][k] == r[j];
            assert s[k + 1] == r[j];
          }
        }
      }
    }
  }

  /** The sort permutes, orders, and on rows with distinct `when`s orders strictly. */
  lemma {:induction false} SortSorts(s: seq<Slot>)
    ensures multiset(Sort(s)) == multiset(s)
    ensures |Sort(s)| == |s|
    ensures Ordered(Sort(s))
  {
    hide WhenLess, Insert;
    if s != [] {
      SortSorts(s[1..]);
      InsertKeeps(s[0], Sort(s[1..]));
      assert s == [s[0]] + s[1..];
    }
    assert |Sort(s)| == |multiset(Sort(s))| == |multiset(s)| == |s|;
  }

  /** Rows of one `when` stay in the order of the table. */
  ghost predicate Stable(s: seq<Slot>) {
    forall i, j :: 0 <= i < j < |s| && s[i].row.when == s[j].row.when ==> s[i].pos < s[j].pos
  }

  lemma {:induction false} SortIsStable(s: seq<Slot>)
    requires Stable(s)
    ensures Stable(Sort(s))
  {
    if s != [] {
      assert Stable(s[1..]);
      SortIsStable(s[1..]);
      SortSorts(s[1..]);
      forall x | x in Sort(s[1..]) && x.row.when == s[0].row.when ensures s[0].pos < x.pos {
        SortMembers(s[1..], x);
      }
      InsertIsStable(s[0], Sort(s[1..]));
    }
  }

  lemma {:induction false} InsertIsStable(x: Slot, s: seq<Slot>)
    requires Ordered(s) && Stable(s)
    requires forall y :: y in s && y.row.when == x.row.when ==> x.pos < y.pos
    ensures Stable(Insert(x, s))
  {
    hide WhenLess;
    if s == [] || !WhenLess(s[0].row.when, x.row.when) {
    } else {
      assert Ordered(s[1..]) && Stable(s[1..]);
      InsertIsStable(x, s[1..]);
      InsertKeeps(x, s[1..]);
      var r := Insert(x, s[1..]);
      forall j | 0 <= j < |r| && r[j].row.when == s[0].row.when ensures s[0].pos < r[j].pos {
        WhenTrichotomy(s[0].row.when, x.row.when);
        assert r[j] in multiset(r);
        assert r[j] in multiset(s[1..]);
        var k :| 0 <= k < |s[1..]| && s[1..][k] == r[j];
        assert s[k + 1] == r[j];
      }
    }
  }

  /** Membership in the sort is membership in the table. */
  lemma SortMembers(s: seq<Slot>, x: Slot)
    ensures x in Sort(s) <==> x in s
  {
    SortSorts(s);
    assert x in multiset(Sort(s)) <==> x in multiset(s);
  }

  lemma {:induction false} SortStrict(s: seq<Slot>)
    requires DistinctSlots(s)
    ensures StrictlyOrdered(Sort(s))
    ensures DistinctSlots(Sort(s))
  {
    SortSorts(s);
    SortDistinct(s);
    var t := Sort(s);
    forall i, j | 0 <= i < j < |t| ensures WhenLess(t[i].row.when, t[j].row.when) {
      WhenTrichotomy(t[i].row.when, t[j].row.when);
    }
  }

  lemma {:induction false} SortDistinct(s: seq<Slot>)
    requires DistinctSlots(s)
    ensures DistinctSlots(Sort(s))
  {
    if s != [] {
      assert DistinctSlots(s[1..]);
      SortDistinct(s[1..]);
      forall x | x in Sort(s[1..]) ensures x.row.when != s[0].row.when {
        SortMembers(s[1..], x);
      }
      InsertDistinct(s[0], Sort(s[1..]));
    }
  }

  lemma {:induction false} InsertDistinct(x: Slot, s: seq<Slot>)
    requires DistinctSlots(s)
    requires forall y :: y in s ==> y.row.when != x.row.when
    ensures DistinctSlots(Insert(x, s))
  {
    if s == [] || !WhenLess(s[0].row.when, x.row.when) {
    } else {
      assert DistinctSlots(s[1..]);
      InsertDistinct(x, s[1..]);
      InsertKeeps(x, s[1..]);
      var r := Insert(x, s[1..]);
      forall j | 0 <= j < |r| ensures r[j].row.when != s[0].row.when {
        assert r[j] in multiset(r);
        if r[j] != x {
          assert r[j] in multiset(s[1..]);
          var k :| 0 <= k < |s[1..]| && s[1..][k] == r[j];
          assert s[k + 1] == r[j];
        }
      }
    }
  }

  lemma {:induction false} NoDuplicatesByMultiset<T>(s: seq<T>, t: seq<T>)
    requires NoDuplicates(s) && multiset(s) == multiset(t)
    ensures NoDuplicates(t)
  {
    AtMostOnce(s);
    forall i, j | 0 <= i < j < |t| ensures t[i] != t[j] {
      if t[i] == t[j] {
        CountedTwice(t, i, j);
        assert false;
      }
    }
  }

  lemma CountedTwice<T>(t: seq<T>, i: nat, j: nat)
    requires i < j < |t| && t[i] == t[j]
    ensures multiset(t)[t[i]] >= 2
  {
    assert t == t[..j] + [t[j]] + t[j + 1..];
    assert t[..j][i] == t[i];
    assert t[i] in t[..j];
  }

  lemma {:induction false} AtMostOnce<T>(s: seq<T>)
    requires NoDuplicates(s)
    ensures forall x :: multiset(s)[x] <= 1
  {
    if s != [] {
      var n := |s| - 1;
      AtMostOnce(s[..n]);
      assert s == s[..n] + [s[n]];
      assert s[n] !in s[..n];
    }
  }

  lemma SlotsDistinct(rows: seq<Row>)
    requires DistinctWhens(rows)
    ensures DistinctSlots(Slots(rows))
  {
  }

  ghost function Whens(s: seq<Slot>): set<When> {
    set x | x in s :: x.row.when
  }

  /** Two strictly ordered lists with the same `when`s list them in the same order. */
  lemma {:induction false} SameWhensAlign(s: seq<Slot>, t: seq<Slot>)
    requires StrictlyOrdered(s) && StrictlyOrdered(t)
    requires Whens(s) == Whens(t)
    ensures |s| == |t|
    ensures forall i :: 0 <= i < |s| ==> s[i].row.when == t[i].row.when
    decreases |s|
  {
    assert s != [] ==> s[0].row.when in Whens(s);
    assert t != [] ==> t[0].row.when in Whens(t);
    if s != [] && t != [] {
      FirstIsLeast(s, t[0].row.when);
      FirstIsLeast(t, s[0].row.when);
      WhenTrichotomy(s[0].row.when, t[0].row.when);
      WhensOfTail(s);
      WhensOfTail(t);
      SameWhensAlign(s[1..], t[1..]);
      forall i | 0 <= i < |s| ensures s[i].row.when == t[i].row.when {
        if i > 0 { assert s[1..][i - 1].row.when == t[1..][i - 1].row.when; }
      }
    }
  }

  lemma FirstIsLeast(s: seq<Slot>, w: When)
    requires StrictlyOrdered(s) && s != []
    ensures s[0].row.when in Whens(s)
    ensures w in Whens(s) ==> w == s[0].row.when || WhenLess(s[0].row.when, w)
  {
    assert s[0] in s;
    if w in Whens(s) {
      var x :| x in s && x.row.when == w;
      var i :| 0 <= i < |s| && s[i] == x;
    }
  }

  lemma WhensOfTail(s: seq<Slot>)
    requires StrictlyOrdered(s) && s != []
    ensures Whens(s[1..]) == Whens(s) - {s[0].row.when}
  {
    forall w | w in Whens(s) - {s[0].row.when} ensures w in Whens(s[1..]) {
      var x :| x in s && x.row.when == w;
      var i :| 0 <= i < |s| && s[i] == x;
      assert s[1..][i - 1] == x;
    }
    forall w | w in Whens(s[1..]) ensures w in Whens(s) && w != s[0].row.when {
      var x :| x in s[1..] && x.row.when == w;
      var i :| 0 <= i < |s[1..]| && s[1..][i] == x;
      assert s[i + 1] == x;
      WhenTrichotomy(w, w);
    }
  }
}
