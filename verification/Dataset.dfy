/**
 `datasets_agree`: the rows a page embeds against the rows a database file holds, each side in its own sorted
 order; and when a report of nothing means that the tables are the same.
 */
module Dataset {
  import opened Options
  import opened Basics
  import opened Ordering

  /** What a row is looked up by: a missing sub-configuration or period reads as empty text. */
  datatype Key = Key(lot: int, category: string, sub: string, period: string)

  datatype Row = Row(key: Key, hours: string, price: string)

  /** A row of the database, whose price is a number of hundredths. */
  datatype Stored = Stored(key: Key, hours: string, price: int)

  predicate KeyLess(a: Key, b: Key) {
    a.lot < b.lot ||
    (a.lot == b.lot &&
      (StringLess(a.category, b.category) ||
       (a.category == b.category && PairLess((a.sub, a.period), (b.sub, b.period)))))
  }

  lemma KeyOrder(a: Key, b: Key, c: Key)
    ensures KeyLess(a, b) || a == b || KeyLess(b, a)
    ensures !(KeyLess(a, b) && KeyLess(b, a))
    ensures KeyLess(a, b) && KeyLess(b, c) ==> KeyLess(a, c)
  {
    PairOrder((a.sub, a.period), (b.sub, b.period), (c.sub, c.period));
    StringTrichotomy(a.category, b.category);
    if StringLess(a.category, b.category) && StringLess(b.category, c.category) {
      StringTransitive(a.category, b.category, c.category);
    }
    hide StringLess, PairLess;
  }

  /** `ORDER BY` the key, then the price as a number. */
  predicate StoredSorted(s: seq<Stored>) {
    forall i, j :: 0 <= i < j < |s| ==>
      KeyLess(s[i].key, s[j].key) || (s[i].key == s[j].key && s[i].price <= s[j].price)
  }

  /** `sorted` by the key, then the price as text. */
  predicate RowsSorted(s: seq<Row>) {
    forall i, j :: 0 <= i < j < |s| ==>
      KeyLess(s[i].key, s[j].key) || (s[i].key == s[j].key && !StringLess(s[j].price, s[i].price))
  }

  function TextOf(s: Stored, show: int -> string): Row {
    Row(s.key, s.hours, show(s.price))
  }

  function TextsOf(s: seq<Stored>, show: int -> string): (r: seq<Row>)
    ensures |r| == |s| && forall i :: 0 <= i < |s| ==> r[i] == TextOf(s[i], show)
  {
    seq(|s|, i requires 0 <= i < |s| => TextOf(s[i], show))
  }

  datatype Problem = LotsDiffer | CountsDiffer | RowDiffers(place: nat)

  /** The first `n` rows compared, until there are more than eight problems. */
  function Compared(db: seq<Row>, embedded: seq<Row>, before: seq<Problem>, n: nat): (problems: seq<Problem>)
    requires n <= |db| && n <= |embedded|
    ensures |before| <= |problems|
  {
    if n == 0 then before
    else
      var so := Compared(db, embedded, before, n - 1);
      if |so| > 8 || db[n - 1] == embedded[n - 1] then so else so + [RowDiffers(n - 1)]
  }

  function Headings(dbLots: seq<int>, lots: seq<int>, db: seq<Row>, embedded: seq<Row>): seq<Problem> {
    (if dbLots != lots then [LotsDiffer] else []) + (if |db| != |embedded| then [CountsDiffer] else [])
  }

  /** `datasets_agree`, over both sides in sorted order. */
  function Problems(dbLots: seq<int>, lots: seq<int>, db: seq<Row>, embedded: seq<Row>): seq<Problem> {
    Compared(db, embedded, Headings(dbLots, lots, db, embedded), Least(|db|, |embedded|))
  }

  lemma {:induction false} EnoughProblems(db: seq<Row>, embedded: seq<Row>, before: seq<Problem>, n: nat, m: nat)
    requires n <= m <= |db| && m <= |embedded| && |Compared(db, embedded, before, n)| > 8
    ensures Compared(db, embedded, before, m) == Compared(db, embedded, before, n)
    decreases m
  {
    if n < m {
      EnoughProblems(db, embedded, before, n, m - 1);
    }
  }

  method DatasetsAgree(dbLots: seq<int>, lots: seq<int>, db: seq<Row>, embedded: seq<Row>)
    returns (problems: seq<Problem>)
    ensures problems == Problems(dbLots, lots, db, embedded)
  {
    problems := [];
    if dbLots != lots {
      problems := problems + [LotsDiffer];
    }
    if |db| != |embedded| {
      problems := problems + [CountsDiffer];
    }
    ghost var before := problems;
    assert before == Headings(dbLots, lots, db, embedded);
    var count := Least(|db|, |embedded|);
    for i := 0 to count
      invariant problems == Compared(db, embedded, before, i) && |problems| <= 8
    {
      if db[i] != embedded[i] {
        problems := problems + [RowDiffers(i)];
        if |problems| > 8 {
          EnoughProblems(db, embedded, before, i + 1, count);
          return;
        }
      }
    }
  }

  lemma {:induction false} NothingDiffers(db: seq<Row>, embedded: seq<Row>, n: nat)
    requires n <= |db| && n <= |embedded|
    ensures Compared(db, embedded, [], n) == [] <==> db[..n] == embedded[..n]
  {
    if n > 0 {
      NothingDiffers(db, embedded, n - 1);
      assert db[..n] == db[..n - 1] + [db[n - 1]] && embedded[..n] == embedded[..n - 1] + [embedded[n - 1]];
    }
  }

  /** Nothing is reported exactly when both sides, as sorted, are the same lists. */
  lemma AgreeExactly(dbLots: seq<int>, lots: seq<int>, db: seq<Row>, embedded: seq<Row>)
    ensures Problems(dbLots, lots, db, embedded) == [] <==> dbLots == lots && db == embedded
  {
    var n := Least(|db|, |embedded|);
    if Headings(dbLots, lots, db, embedded) == [] {
      NothingDiffers(db, embedded, n);
      assert db[..n] == db && embedded[..n] == embedded;
    }
  }

  /** How many of the first `n` rows differ. */
  ghost function Differing(db: seq<Row>, embedded: seq<Row>, n: nat): nat
    requires n <= |db| && n <= |embedded|
  {
    if n == 0 then 0
    else Differing(db, embedded, n - 1) + if db[n - 1] != embedded[n - 1] then 1 else 0
  }

  lemma {:induction false} ComparedExactly(db: seq<Row>, embedded: seq<Row>, before: seq<Problem>, n: nat)
    requires n <= |db| && n <= |embedded| && |before| <= 2
    ensures |Compared(db, embedded, before, n)| == Least(9, |before| + Differing(db, embedded, n))
    ensures forall p :: p in Compared(db, embedded, before, n) <==>
      p in before || exists i: nat :: i < n && p == RowDiffers(i) && Reported(db, embedded, |before|, i)
  {
    if n > 0 {
      ComparedExactly(db, embedded, before, n - 1);
    }
  }

  /** The rows at this place differ, and fewer than nine problems came before. */
  ghost predicate Reported(db: seq<Row>, embedded: seq<Row>, before: nat, i: nat) {
    && i < |db| && i < |embedded| && db[i] != embedded[i]
    && before + Differing(db, embedded, i) <= 8
  }

  /** What is reported: lots that differ, counts that differ, and places whose rows differ, nine problems at most. */
  lemma ReportedExactly(dbLots: seq<int>, lots: seq<int>, db: seq<Row>, embedded: seq<Row>)
    ensures var problems := Problems(dbLots, lots, db, embedded);
      var before := (if dbLots != lots then 1 else 0) + (if |db| != |embedded| then 1 else 0);
      && (LotsDiffer in problems <==> dbLots != lots) && (CountsDiffer in problems <==> |db| != |embedded|)
      && (forall i: nat :: RowDiffers(i) in problems <==> Reported(db, embedded, before, i))
      && |problems| == Least(9, before + Differing(db, embedded, Least(|db|, |embedded|)))
  {
    ComparedExactly(db, embedded, Headings(dbLots, lots, db, embedded), Least(|db|, |embedded|));
    hide Compared, Differing;
  }

  // ---- the same rows, whatever order they are compared in

  /** The order the page sorts by. */
  predicate RowLess(a: Row, b: Row) {
    KeyLess(a.key, b.key) || (a.key == b.key && StringLess(a.price, b.price))
  }

  lemma RowOrder(a: Row, b: Row)
    ensures RowLess(a, b) || RowLess(b, a) || (a.key == b.key && a.price == b.price)
    ensures !(RowLess(a, b) && RowLess(b, a))
  {
    KeyOrder(a.key, b.key, a.key);
    StringTrichotomy(a.price, b.price);
    hide KeyLess, StringLess;
  }

  lemma RowsSortedExactly(s: seq<Row>)
    ensures RowsSorted(s) <==> forall i, j :: 0 <= i < j < |s| ==> !RowLess(s[j], s[i])
  {
    forall i, j | 0 <= i < j < |s|
      ensures !RowLess(s[j], s[i]) <==>
        KeyLess(s[i].key, s[j].key) || (s[i].key == s[j].key && !StringLess(s[j].price, s[i].price))
    {
      KeyOrder(s[i].key, s[j].key, s[i].key);
    }
    hide KeyLess, StringLess;
  }

  /** Rows of one key and one price are the same row. */
  predicate TiesAreSame(s: seq<Row>) {
    forall x, y :: x in s && y in s && x.key == y.key && x.price == y.price ==> x == y
  }

  /** The last row of one arrangement is the last of the other. */
  lemma SameLast(a: seq<Row>, b: seq<Row>)
    requires RowsSorted(a) && RowsSorted(b) && TiesAreSame(a) && multiset(a) == multiset(b) && a != []
    ensures b != [] && a[|a| - 1] == b[|b| - 1]
  {
    RowsSortedExactly(a);
    RowsSortedExactly(b);
    hide RowsSorted, RowLess;
    var x := a[|a| - 1];
    assert x in multiset(a);
    var i :| 0 <= i < |b| && b[i] == x;
    var y := b[|b| - 1];
    assert y in multiset(b);
    var j :| 0 <= j < |a| && a[j] == y;
    RowOrder(x, y);
    assert j == |a| - 1 || !RowLess(x, y);
    assert i == |b| - 1 || !RowLess(y, x);
  }

  lemma FrontKept(a: seq<Row>)
    requires a != [] && RowsSorted(a)
    ensures var front, x := a[..|a| - 1], a[|a| - 1];
      && RowsSorted(front) && (TiesAreSame(a) ==> TiesAreSame(front))
      && a == front + [x] && multiset(front) == multiset(a) - multiset{x}
  {
    hide KeyLess, StringLess;
    assert a == a[..|a| - 1] + [a[|a| - 1]];
  }

  /** Two arrangements of one table, with no ties but of the same row, are one list. */
  lemma {:induction false} OneArrangement(a: seq<Row>, b: seq<Row>)
    requires RowsSorted(a) && RowsSorted(b) && TiesAreSame(a) && multiset(a) == multiset(b)
    ensures a == b
  {
    if a == [] {
      assert |multiset(b)| == 0;
    } else {
      hide RowsSorted, TiesAreSame;
      SameLast(a, b);
      FrontKept(a);
      FrontKept(b);
      OneArrangement(a[..|a| - 1], b[..|b| - 1]);
    }
  }

  /** With no ties but of the same row, equal tables report nothing exactly when the file's order is the page's too. */
  lemma AgreeByOrder(lots: seq<int>, db: seq<Stored>, embedded: seq<Row>, show: int -> string)
    requires RowsSorted(embedded) && TiesAreSame(embedded) && multiset(TextsOf(db, show)) == multiset(embedded)
    ensures Problems(lots, lots, TextsOf(db, show), embedded) == [] <==> RowsSorted(TextsOf(db, show))
  {
    hide RowsSorted, TiesAreSame, Problems;
    AgreeExactly(lots, lots, TextsOf(db, show), embedded);
    if RowsSorted(TextsOf(db, show)) {
      OneArrangement(embedded, TextsOf(db, show));
    }
  }

  /** The two rows of one key read alike, or have prices that text orders as the numbers do. */
  predicate Apart(x: Stored, y: Stored, show: int -> string) {
    || TextOf(x, show) == TextOf(y, show)
    || (x.price < y.price && StringLess(show(x.price), show(y.price)))
    || (y.price < x.price && StringLess(show(y.price), show(x.price)))
  }

  /** Any two rows of one key are so. */
  predicate Unambiguous(db: seq<Stored>, show: int -> string) {
    forall i, j :: 0 <= i < j < |db| && db[i].key == db[j].key ==> Apart(db[i], db[j], show)
  }

  lemma UnambiguousTies(db: seq<Stored>, show: int -> string)
    requires Unambiguous(db, show)
    ensures TiesAreSame(TextsOf(db, show))
  {
    var rows := TextsOf(db, show);
    forall x, y | x in rows && y in rows && x.key == y.key && x.price == y.price ensures x == y {
      var i :| 0 <= i < |rows| && rows[i] == x;
      var j :| 0 <= j < |rows| && rows[j] == y;
      StringTrichotomy(x.price, y.price);
      assert i == j || Apart(db[i], db[j], show) || Apart(db[j], db[i], show);
    }
  }

  lemma UnambiguousSorted(db: seq<Stored>, show: int -> string)
    requires StoredSorted(db) && Unambiguous(db, show)
    ensures RowsSorted(TextsOf(db, show))
  {
    var rows := TextsOf(db, show);
    forall i, j | 0 <= i < j < |rows|
      ensures KeyLess(rows[i].key, rows[j].key)
        || (rows[i].key == rows[j].key && !StringLess(rows[j].price, rows[i].price))
    {
      StringTrichotomy(rows[i].price, rows[j].price);
      assert db[i].key == db[j].key ==> Apart(db[i], db[j], show);
    }
  }

  lemma SameMembers(a: seq<Row>, b: seq<Row>)
    requires multiset(a) == multiset(b)
    ensures forall x :: x in a <==> x in b
  {
    assert forall x :: x in a <==> x in multiset(a);
    assert forall x :: x in b <==> x in multiset(b);
  }

  lemma UnambiguousAgrees(lots: seq<int>, db: seq<Stored>, embedded: seq<Row>, show: int -> string)
    requires StoredSorted(db) && RowsSorted(embedded) && multiset(TextsOf(db, show)) == multiset(embedded)
    requires Unambiguous(db, show)
    ensures Problems(lots, lots, TextsOf(db, show), embedded) == []
  {
    UnambiguousTies(db, show);
    UnambiguousSorted(db, show);
    SameMembers(TextsOf(db, show), embedded);
    hide RowsSorted, StoredSorted, Unambiguous, Problems;
    AgreeByOrder(lots, db, embedded, show);
  }

  /** Two rows that sort alike may change places. */
  lemma SwappedIsSorted(s: seq<Row>, i: nat, j: nat)
    requires RowsSorted(s) && i < j < |s| && s[i].key == s[j].key && s[i].price == s[j].price
    ensures RowsSorted(s[i := s[j]][j := s[i]]) && multiset(s[i := s[j]][j := s[i]]) == multiset(s)
  {
    var t := s[i := s[j]][j := s[i]];
    forall k | 0 <= k < |s| ensures t[k].key == s[k].key && t[k].price == s[k].price {
    }
    hide KeyLess, StringLess;
  }

  /** Two rows of the page that sort alike and differ. */
  lemma AmbiguousPair(db: seq<Stored>, show: int -> string) returns (i: nat, j: nat)
    requires !Unambiguous(db, show) && RowsSorted(TextsOf(db, show)) && StoredSorted(db)
    ensures var rows := TextsOf(db, show);
      i < j < |rows| && rows[i].key == rows[j].key && rows[i].price == rows[j].price && rows[i] != rows[j]
  {
    i, j :| 0 <= i < j < |db| && db[i].key == db[j].key && !Apart(db[i], db[j], show);
    var rows := TextsOf(db, show);
    KeyOrder(db[i].key, db[j].key, db[i].key);
    RowsSortedExactly(rows);
    RowOrder(rows[i], rows[j]);
  }

  /** Where two rows of one key are not told apart, some order of the page's rows is reported to differ. */
  lemma AmbiguousDiffers(lots: seq<int>, db: seq<Stored>, embedded: seq<Row>, show: int -> string)
    returns (other: seq<Row>)
    requires StoredSorted(db) && RowsSorted(embedded) && multiset(TextsOf(db, show)) == multiset(embedded)
    requires !Unambiguous(db, show)
    ensures RowsSorted(other) && multiset(other) == multiset(embedded)
    ensures Problems(lots, lots, TextsOf(db, show), other) != []
  {
    hide RowsSorted, StoredSorted, Unambiguous, Problems, KeyLess, TextsOf;
    var rows := TextsOf(db, show);
    AgreeExactly(lots, lots, rows, embedded);
    other := embedded;
    if embedded == rows {
      var i, j := AmbiguousPair(db, show);
      SwappedIsSorted(rows, i, j);
      other := rows[i := rows[j]][j := rows[i]];
      AgreeExactly(lots, lots, rows, other);
      assert other[i] != rows[i];
    }
  }

  /**
   Of two containers that hold the same tables nothing is reported, in whatever order the page lists its rows,
   exactly when any two rows of one key read alike or have prices that text orders as the numbers do.
   */
  lemma SameTablesAgreeExactly(lots: seq<int>, db: seq<Stored>, embedded: seq<Row>, show: int -> string)
    requires StoredSorted(db) && RowsSorted(embedded) && multiset(TextsOf(db, show)) == multiset(embedded)
    ensures Unambiguous(db, show) <==>
      forall other :: RowsSorted(other) && multiset(other) == multiset(embedded) ==>
        Problems(lots, lots, TextsOf(db, show), other) == []
  {
    hide RowsSorted, StoredSorted, Unambiguous, Problems;
    if Unambiguous(db, show) {
      forall other | RowsSorted(other) && multiset(other) == multiset(embedded)
        ensures Problems(lots, lots, TextsOf(db, show), other) == []
      {
        UnambiguousAgrees(lots, db, other, show);
      }
    } else {
      var other := AmbiguousDiffers(lots, db, embedded, show);
    }
  }

  /** No two rows have one key. */
  predicate IsKeyed(s: seq<Row>) {
    forall i, j :: 0 <= i < j < |s| ==> s[i].key != s[j].key
  }

  /** Rows with a key are unambiguous. */
  lemma KeyedIsUnambiguous(db: seq<Stored>, show: int -> string)
    requires IsKeyed(TextsOf(db, show))
    ensures Unambiguous(db, show)
  {
    var rows := TextsOf(db, show);
    assert forall i :: 0 <= i < |db| ==> rows[i].key == db[i].key;
  }

  /**
   What a report of nothing says: the containers hold the same tables; and, where the file's rows are
   unambiguous, exactly that.
   */
  lemma AgreeIsSameTables(dbLots: seq<int>, lots: seq<int>, db: seq<Stored>, embedded: seq<Row>, show: int -> string)
    requires StoredSorted(db) && RowsSorted(embedded)
    ensures Problems(dbLots, lots, TextsOf(db, show), embedded) == [] ==>
      dbLots == lots && multiset(TextsOf(db, show)) == multiset(embedded)
    ensures Unambiguous(db, show) ==>
      (Problems(dbLots, lots, TextsOf(db, show), embedded) == [] <==>
        dbLots == lots && multiset(TextsOf(db, show)) == multiset(embedded))
  {
    hide RowsSorted, StoredSorted, Unambiguous, Problems;
    AgreeExactly(dbLots, lots, TextsOf(db, show), embedded);
    if Unambiguous(db, show) && dbLots == lots && multiset(TextsOf(db, show)) == multiset(embedded) {
      UnambiguousAgrees(lots, db, embedded, show);
    }
  }

  /** Two rows of one key at 9.00 and 10.00: prices sort as numbers in the file and as text in the page. */
  lemma TiesDisagree(key: Key, hours: string, lots: seq<int>, show: int -> string)
    requires show(900) == "9.00" && show(1000) == "10.00"
    ensures var db := [Stored(key, hours, 900), Stored(key, hours, 1000)];
      var embedded := [Row(key, hours, "10.00"), Row(key, hours, "9.00")];
      && StoredSorted(db) && RowsSorted(embedded) && multiset(TextsOf(db, show)) == multiset(embedded)
      && !Unambiguous(db, show) && Problems(lots, lots, TextsOf(db, show), embedded) != []
  {
    var db := [Stored(key, hours, 900), Stored(key, hours, 1000)];
    var embedded := [Row(key, hours, "10.00"), Row(key, hours, "9.00")];
    assert "10.00"[0] == '1' && "9.00"[0] == '9';
    assert TextsOf(db, show) == [Row(key, hours, "9.00"), Row(key, hours, "10.00")];
    AgreeExactly(lots, lots, TextsOf(db, show), embedded);
    assert !Apart(db[0], db[1], show);
  }
}
