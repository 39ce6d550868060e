/**
 `verify_self`: is a row found by its own vector? The store may put rows at equal distance in any order,
 and in another order each time it is asked.
 */
module VerifySelf {
  import opened Options
  import opened Basics

  datatype Hit = Hit(id: nat, distance: Option<real>)

  datatype Answer = Refused | Page(hits: seq<Hit>)

  const TOLERANCE: real := 0.0001

  predicate Near(d: real) {
    -TOLERANCE <= d <= TOLERANCE
  }

  /** `distance or 1.0`: a distance of nought is taken for a missing one. */
  function OrOne(d: Option<real>): real {
    if d.None? || d.value == 0.0 then 1.0 else d.value
  }

  predicate Saturated(hits: seq<Hit>) {
    forall i :: 0 <= i < |hits| ==> Near(OrOne(hits[i].distance))
  }

  predicate Holds(hits: seq<Hit>, id: nat) {
    exists i :: 0 <= i < |hits| && hits[i].id == id
  }

  /** The first place the row is listed. */
  function Place(hits: seq<Hit>, id: nat): (p: nat)
    requires Holds(hits, id)
    ensures p < |hits| && hits[p].id == id && forall j :: 0 <= j < p ==> hits[j].id != id
  {
    if hits[0].id == id then 0
    else
      assert Holds(hits[1..], id) by {
        var i :| 0 <= i < |hits| && hits[i].id == id;
        assert hits[1..][i - 1].id == id;
      }
      var p := Place(hits[1..], id);
      assert forall j :: 0 < j <= p ==> hits[j] == hits[1..][j - 1];
      p + 1
  }

  /** A row listed counts as found unless a distance is given and it is not near nought. */
  predicate FoundAt(hits: seq<Hit>, id: nat)
    requires Holds(hits, id)
  {
    var d := hits[Place(hits, id)].distance;
    d.Some? ==> Near(d.value)
  }

  /** What one query settles; None where the page is widened. */
  function Settles(a: Answer, id: nat, k: nat): Option<bool> {
    if a.Refused? || a.hits == [] then Some(false)
    else if Holds(a.hits, id) then Some(FoundAt(a.hits, id))
    else if Saturated(a.hits) && |a.hits| >= k then None
    else Some(false)
  }

  /** What two queries come to. */
  predicate Verdict(ask: nat -> Answer, id: nat, k: nat) {
    var first := Settles(ask(k), id, k);
    if first.Some? then first.value else Settles(ask(k * 20), id, k * 20) == Some(true)
  }

  method Verify(ask: nat -> Answer, id: nat, k: nat) returns (ok: bool)
    ensures ok == Verdict(ask, id, k)
  {
    var attempts := [k, k * 20];
    for a := 0 to 2
      invariant a > 0 ==> Settles(ask(k), id, k).None?
      invariant a > 1 ==> Settles(ask(k * 20), id, k * 20) != Some(true)
    {
      var answer := ask(attempts[a]);
      if answer.Refused? || answer.hits == [] {
        return false;
      }
      var hits := answer.hits;
      var saturated := true;
      for i := 0 to |hits|
        invariant forall j :: 0 <= j < i ==> hits[j].id != id
        invariant saturated <==> forall j :: 0 <= j < i ==> Near(OrOne(hits[j].distance))
      {
        if hits[i].id == id {
          assert Holds(hits, id);
          var d := hits[i].distance;
          return d.None? || Near(d.value);
        }
        if !Near(OrOne(hits[i].distance)) {
          saturated := false;
        }
      }
      assert !Holds(hits, id);
      if !(saturated && |hits| >= attempts[a]) {
        return false;
      }
    }
    ok := false;
  }

  // ---- when it answers yes

  /** The page lists the row, and where it does so first gives it no distance, or one near nought. */
  ghost predicate ShowsNear(a: Answer, id: nat) {
    a.Page? && exists p: nat :: ListedFirst(a.hits, id, p) && NearlyNought(a.hits[p])
  }

  ghost predicate ListedFirst(hits: seq<Hit>, id: nat, p: nat) {
    p < |hits| && hits[p].id == id && forall j :: 0 <= j < p ==> hits[j].id != id
  }

  ghost predicate NearlyNought(hit: Hit) {
    hit.distance.Some? ==> -0.0001 <= hit.distance.value <= 0.0001
  }

  /** A page as long as asked for, without the row, whose every distance is given, near nought and not nought. */
  ghost predicate FullOfTies(a: Answer, id: nat, k: nat) {
    && a.Page? && |a.hits| > 0 && |a.hits| >= k
    && forall i :: 0 <= i < |a.hits| ==>
         && a.hits[i].id != id
         && a.hits[i].distance.Some? && a.hits[i].distance.value != 0.0 && NearlyNought(a.hits[i])
  }

  lemma SettlesExactly(a: Answer, id: nat, k: nat)
    ensures Settles(a, id, k) == Some(true) <==> ShowsNear(a, id)
    ensures Settles(a, id, k) == None <==> FullOfTies(a, id, k)
  {
    if a.Page? && Holds(a.hits, id) {
      var p := Place(a.hits, id);
      assert ListedFirst(a.hits, id, p);
      forall q: nat | ListedFirst(a.hits, id, q) ensures q == p {
        assert !(p < q) && !(q < p);
      }
    }
  }

  /**
   Yes means the row itself came back, near or with no distance given, the first time it is listed: on the first page,
   or on the wide one when the first was full of others at small distances that are not nought.
   */
  lemma YesMeansFound(ask: nat -> Answer, id: nat, k: nat)
    ensures Verdict(ask, id, k) <==>
      ShowsNear(ask(k), id) || (FullOfTies(ask(k), id, k) && ShowsNear(ask(k * 20), id))
  {
    SettlesExactly(ask(k), id, k);
    SettlesExactly(ask(k * 20), id, k * 20);
    hide Settles, ShowsNear, FullOfTies;
  }

  /** A page the store may return: the nearest rows, each once, as many as there are and no more than asked. */
  ghost predicate Nearest(a: Answer, dist: map<nat, real>, k: nat) {
    && a.Page?
    && |a.hits| == (if |dist| < k then |dist| else k)
    && (forall i :: 0 <= i < |a.hits| ==> a.hits[i].id in dist && a.hits[i].distance == Some(dist[a.hits[i].id]))
    && (forall i, j :: 0 <= i < j < |a.hits| ==> a.hits[i].id != a.hits[j].id)
    && (forall i, id :: 0 <= i < |a.hits| && id in dist && !Holds(a.hits, id) ==> dist[a.hits[i].id] <= dist[id])
  }

  /** The rows at no distance to speak of. */
  function Ties(dist: map<nat, real>): set<nat> {
    set id | id in dist && Near(dist[id])
  }

  predicate NoneZero(hits: seq<Hit>) {
    forall i :: 0 <= i < |hits| ==> hits[i].distance != Some(0.0)
  }

  function Ids(hits: seq<Hit>): set<nat> {
    set i | 0 <= i < |hits| :: hits[i].id
  }

  lemma {:induction false} IdsCount(hits: seq<Hit>)
    requires forall i, j :: 0 <= i < j < |hits| ==> hits[i].id != hits[j].id
    ensures |Ids(hits)| == |hits|
  {
    if hits != [] {
      var front := hits[..|hits| - 1];
      IdsCount(front);
      assert Ids(hits) == Ids(front) + {hits[|hits| - 1].id};
    }
  }

  /** A page without the row is a full page of rows no farther than it. */
  lemma AbsentMeansFull(a: Answer, dist: map<nat, real>, k: nat, id: nat)
    requires Nearest(a, dist, k) && id in dist && !Holds(a.hits, id)
    ensures |a.hits| == k && forall i :: 0 <= i < k ==> dist[a.hits[i].id] <= dist[id]
  {
    var ids := Ids(a.hits);
    IdsCount(a.hits);
    assert id !in ids;
    assert ids + {id} <= dist.Keys;
    SubsetCount(ids + {id}, dist.Keys);
  }

  /** A page wide enough for every tie holds each row that is one. */
  lemma WideEnough(a: Answer, dist: map<nat, real>, k: nat, id: nat)
    requires Nearest(a, dist, k) && id in dist && Near(dist[id]) && |Ties(dist)| <= k
    requires forall j :: j in dist ==> dist[j] >= -TOLERANCE
    ensures Holds(a.hits, id)
  {
    if !Holds(a.hits, id) {
      AbsentMeansFull(a, dist, k, id);
      var ids := Ids(a.hits);
      IdsCount(a.hits);
      assert id !in ids;
      assert ids + {id} <= Ties(dist);
      SubsetCount(ids + {id}, Ties(dist));
      assert false;
    }
  }

  lemma HeldIsFound(a: Answer, dist: map<nat, real>, k: nat, id: nat)
    requires Nearest(a, dist, k) && id in dist && Near(dist[id]) && Holds(a.hits, id)
    ensures Settles(a, id, k) == Some(true)
  {
  }

  /** An absent row's page is widened exactly when no distance on it reads as nought. */
  lemma AbsentIsWidened(a: Answer, dist: map<nat, real>, k: nat, id: nat)
    requires Nearest(a, dist, k) && id in dist && Near(dist[id]) && !Holds(a.hits, id) && k > 0
    requires forall j :: j in dist ==> dist[j] >= -TOLERANCE
    ensures Settles(a, id, k) == if NoneZero(a.hits) then None else Some(false)
  {
    AbsentMeansFull(a, dist, k, id);
    assert Saturated(a.hits) <==> NoneZero(a.hits);
  }

  /**
   For any two pages the store may answer with: an indexed row is found exactly when the first lists it, or shows
   no distance of exactly nought and the wide one lists it.
   */
  lemma IndexedExactly(ask: nat -> Answer, dist: map<nat, real>, id: nat, k: nat)
    requires k > 0 && Nearest(ask(k), dist, k) && Nearest(ask(k * 20), dist, k * 20)
    requires id in dist && Near(dist[id])
    requires forall j :: j in dist ==> dist[j] >= -TOLERANCE
    ensures Verdict(ask, id, k) <==>
      Holds(ask(k).hits, id) || (NoneZero(ask(k).hits) && Holds(ask(k * 20).hits, id))
  {
    assert ask(k).Page?;
    hide Nearest, NoneZero, Holds, Settles, Near;
    if Holds(ask(k).hits, id) {
      HeldIsFound(ask(k), dist, k, id);
    } else {
      AbsentIsWidened(ask(k), dist, k, id);
      if Holds(ask(k * 20).hits, id) {
        HeldIsFound(ask(k * 20), dist, k * 20, id);
      } else {
        AbsentIsWidened(ask(k * 20), dist, k * 20, id);
      }
    }
  }

  /** A page wide enough for every tie at the first asking needs no widening: the row is found. */
  lemma FewTiesAlwaysFound(ask: nat -> Answer, dist: map<nat, real>, id: nat, k: nat)
    requires k > 0 && Nearest(ask(k), dist, k)
    requires id in dist && Near(dist[id]) && |Ties(dist)| <= k
    requires forall j :: j in dist ==> dist[j] >= -TOLERANCE
    ensures Verdict(ask, id, k)
  {
    hide Nearest, Ties, Holds, Settles, Near;
    WideEnough(ask(k), dist, k, id);
    HeldIsFound(ask(k), dist, k, id);
  }

  // ---- over every order the store may answer in

  /** The other rows that are no farther than this one. */
  function Rivals(dist: map<nat, real>, id: nat): set<nat>
    requires id in dist
  {
    set j | j in dist && j != id && dist[j] <= dist[id]
  }

  function Negative(dist: map<nat, real>): set<nat> {
    set j | j in dist && dist[j] < 0.0
  }

  /** Some rival stands at exactly nought, and the page has room for one. */
  ghost predicate ZeroFits(dist: map<nat, real>, id: nat, k: nat)
    requires id in dist
  {
    (exists j :: j in Rivals(dist, id) && dist[j] == 0.0) && |Negative(dist)| < k
  }

  /** Whatever two pages the store returns, the row is found. */
  ghost predicate AlwaysFound(dist: map<nat, real>, id: nat, k: nat) {
    forall ask: nat -> Answer :: Nearest(ask(k), dist, k) && Nearest(ask(k * 20), dist, k * 20) ==> Verdict(ask, id, k)
  }

  /** Rows that may fill a page: none outside is nearer. */
  ghost predicate Lowest(s: set<nat>, dist: map<nat, real>) {
    s <= dist.Keys && forall i, j :: i in s && j in dist && j !in s ==> dist[i] <= dist[j]
  }

  function PageOf(ids: seq<nat>, dist: map<nat, real>): Answer
    requires forall i :: 0 <= i < |ids| ==> ids[i] in dist
  {
    Page(seq(|ids|, i requires 0 <= i < |ids| => Hit(ids[i], Some(dist[ids[i]]))))
  }

  lemma {:induction false} Listed(s: set<nat>) returns (ids: seq<nat>)
    ensures |ids| == |s| && (forall i :: i in ids <==> i in s) && NoDuplicates(ids)
    decreases |s|
  {
    if s == {} {
      ids := [];
    } else {
      var x :| x in s;
      var rest := Listed(s - {x});
      ids := rest + [x];
    }
  }

  /** Any such set of the right size is a page the store may return. */
  lemma PageFrom(s: set<nat>, dist: map<nat, real>, k: nat) returns (a: Answer)
    requires Lowest(s, dist) && |s| == if |dist| < k then |dist| else k
    ensures Nearest(a, dist, k) && forall id :: Holds(a.hits, id) <==> id in s
  {
    var ids := Listed(s);
    assert forall i :: 0 <= i < |ids| ==> ids[i] in s;
    a := PageOf(ids, dist);
    forall id ensures Holds(a.hits, id) <==> id in s {
      if id in s {
        var i :| 0 <= i < |ids| && ids[i] == id;
        assert a.hits[i].id == id;
      }
    }
  }

  lemma {:induction false} Farthest(s: set<nat>, dist: map<nat, real>) returns (m: nat)
    requires s != {} && s <= dist.Keys
    ensures m in s && forall j :: j in s ==> dist[j] <= dist[m]
    decreases |s|
  {
    var x :| x in s;
    if s == {x} {
      m := x;
    } else {
      var y := Farthest(s - {x}, dist);
      m := if dist[x] > dist[y] then x else y;
      assert forall j :: j in s ==> j == x || j in s - {x};
    }
  }

  /** Of a set of lowest rows, as many as asked; one at nought is kept while no more than those below it are wanted. */
  lemma {:induction false} Shrunk(s: set<nat>, dist: map<nat, real>, k: nat, zero: Option<nat>) returns (t: set<nat>)
    requires Lowest(s, dist) && k <= |s|
    requires zero.Some? ==> zero.value in s && dist[zero.value] == 0.0 && |Negative(dist)| < k
    ensures Lowest(t, dist) && |t| == k && t <= s && (zero.Some? ==> zero.value in t)
    decreases |s|
  {
    if |s| == k {
      t := s;
    } else {
      var m := Farthest(s, dist);
      if zero.Some? && m == zero.value {
        m := AnotherFarthest(s, dist, k, m);
      }
      assert |s - {m}| == |s| - 1;
      t := Shrunk(s - {m}, dist, k, zero);
    }
  }

  /** When the farthest is at nought and there are more rows than lie below it, another is as far. */
  lemma AnotherFarthest(s: set<nat>, dist: map<nat, real>, k: nat, z: nat) returns (m: nat)
    requires z in s && s <= dist.Keys && dist[z] == 0.0 && (forall j :: j in s ==> dist[j] <= 0.0)
    requires |Negative(dist)| < k < |s|
    ensures m in s && m != z && forall j :: j in s ==> dist[j] <= dist[m]
  {
    assert |s - {z}| == |s| - 1;
    if forall j :: j in s - {z} ==> dist[j] < 0.0 {
      SubsetCount(s - {z}, Negative(dist));
      assert false;
    }
    m :| m in s - {z} && dist[m] >= 0.0;
  }

  lemma RivalsAreLowest(dist: map<nat, real>, id: nat)
    requires id in dist
    ensures Lowest(Rivals(dist, id), dist)
  {
  }

  /** A page without the row can be had exactly when its rivals fill it. */
  lemma LeftOutExactly(a: Answer, dist: map<nat, real>, k: nat, id: nat)
    requires Nearest(a, dist, k) && id in dist && |Rivals(dist, id)| < k
    ensures Holds(a.hits, id)
  {
    if !Holds(a.hits, id) {
      AbsentMeansFull(a, dist, k, id);
      IdsCount(a.hits);
      var ids := Ids(a.hits);
      assert id !in ids && ids <= Rivals(dist, id);
      SubsetCount(ids, Rivals(dist, id));
      assert false;
    }
  }

  lemma HeldIds(hits: seq<Hit>)
    ensures forall j :: Holds(hits, j) <==> j in Ids(hits)
  {
  }

  /** What is nearer than a row on the page is on it too. */
  lemma NearerIsHeld(a: Answer, dist: map<nat, real>, k: nat, i: nat, j: nat)
    requires Nearest(a, dist, k) && i < |a.hits| && j in dist
    requires dist[j] < dist[a.hits[i].id]
    ensures Holds(a.hits, j)
  {
  }

  lemma ZeroHasRoom(a: Answer, dist: map<nat, real>, k: nat, i: nat)
    requires Nearest(a, dist, k) && i < |a.hits| && |a.hits| <= k && dist[a.hits[i].id] == 0.0
    ensures |Negative(dist)| < k
  {
    var ids, z := Ids(a.hits), a.hits[i].id;
    IdsCount(a.hits);
    HeldIds(a.hits);
    forall j | j in Negative(dist) ensures Holds(a.hits, j) {
      NearerIsHeld(a, dist, k, i, j);
    }
    assert z in ids && Negative(dist) <= ids - {z};
    hide Nearest, Holds, Ids, Negative;
    SubsetCount(Negative(dist), ids - {z});
  }

  /** A zero on a page that leaves the row out is a rival's, and had room. */
  lemma ZeroOnPage(a: Answer, dist: map<nat, real>, k: nat, id: nat)
    requires Nearest(a, dist, k) && id in dist && !Holds(a.hits, id) && !NoneZero(a.hits)
    ensures ZeroFits(dist, id, k)
  {
    AbsentMeansFull(a, dist, k, id);
    var i :| 0 <= i < |a.hits| && a.hits[i].distance == Some(0.0);
    assert a.hits[i].id in Rivals(dist, id);
    ZeroHasRoom(a, dist, k, i);
  }

  /** Two pages as the store is asked for them. */
  function Asks(k: nat, first: Answer, wide: Answer): nat -> Answer {
    (kk: nat) => if kk == k then first else wide
  }

  lemma SomePage(dist: map<nat, real>, k: nat) returns (a: Answer)
    ensures Nearest(a, dist, k)
  {
    var s := Shrunk(dist.Keys, dist, if |dist| < k then |dist| else k, None);
    assert |dist.Keys| == |dist|;
    a := PageFrom(s, dist, k);
  }

  /** With rivals enough, a page without the row; and one that shows a zero, where one fits. */
  lemma PageWithout(dist: map<nat, real>, id: nat, k: nat) returns (a: Answer)
    requires id in dist && k <= |Rivals(dist, id)|
    ensures Nearest(a, dist, k) && !Holds(a.hits, id) && (ZeroFits(dist, id, k) ==> !NoneZero(a.hits))
  {
    RivalsAreLowest(dist, id);
    var zero: Option<nat> := None;
    if ZeroFits(dist, id, k) {
      var z :| z in Rivals(dist, id) && dist[z] == 0.0;
      zero := Some(z);
    }
    var s := Shrunk(Rivals(dist, id), dist, k, zero);
    SubsetCount(Rivals(dist, id), dist.Keys);
    assert |dist.Keys| == |dist|;
    a := PageFrom(s, dist, k);
    if zero.Some? {
      assert Holds(a.hits, zero.value);
      var i :| 0 <= i < |a.hits| && a.hits[i].id == zero.value;
      assert a.hits[i].distance == Some(0.0);
    }
  }

  lemma FoundWhenFits(ask: nat -> Answer, dist: map<nat, real>, id: nat, k: nat)
    requires k > 0 && id in dist && Near(dist[id]) && forall j :: j in dist ==> dist[j] >= -TOLERANCE
    requires Nearest(ask(k), dist, k) && Nearest(ask(k * 20), dist, k * 20)
    requires |Rivals(dist, id)| < k || (|Rivals(dist, id)| < k * 20 && !ZeroFits(dist, id, k))
    ensures Verdict(ask, id, k)
  {
    assert ask(k).Page?;
    hide Nearest, Near, NoneZero, Holds, Settles, ZeroFits, Rivals;
    if Holds(ask(k).hits, id) {
      HeldIsFound(ask(k), dist, k, id);
    } else {
      if |Rivals(dist, id)| < k {
        LeftOutExactly(ask(k), dist, k, id);
      }
      if !NoneZero(ask(k).hits) {
        ZeroOnPage(ask(k), dist, k, id);
      }
      AbsentIsWidened(ask(k), dist, k, id);
      LeftOutExactly(ask(k * 20), dist, k * 20, id);
      HeldIsFound(ask(k * 20), dist, k * 20, id);
    }
  }

  lemma MissedElse(dist: map<nat, real>, id: nat, k: nat) returns (ask: nat -> Answer)
    requires k > 0 && id in dist && Near(dist[id]) && forall j :: j in dist ==> dist[j] >= -TOLERANCE
    requires k <= |Rivals(dist, id)| && (k * 20 <= |Rivals(dist, id)| || ZeroFits(dist, id, k))
    ensures Nearest(ask(k), dist, k) && Nearest(ask(k * 20), dist, k * 20) && !Verdict(ask, id, k)
  {
    var first := PageWithout(dist, id, k);
    var wide;
    if k * 20 <= |Rivals(dist, id)| {
      wide := PageWithout(dist, id, k * 20);
    } else {
      wide := SomePage(dist, k * 20);
    }
    ask := Asks(k, first, wide);
    assert ask(k) == first && ask(k * 20) == wide && first.Page? && wide.Page?;
    hide Nearest, Near, NoneZero, Holds, ZeroFits, Rivals;
    AbsentIsWidened(first, dist, k, id);
    if !Holds(wide.hits, id) {
      AbsentIsWidened(wide, dist, k * 20, id);
    }
  }

  /**
   An indexed row is found, whatever order the store answers in, exactly when its rivals do not fill the first
   page; or do not fill the wide one, and none of them at exactly nought can stand on the first.
   */
  lemma AlwaysFoundExactly(dist: map<nat, real>, id: nat, k: nat)
    requires k > 0 && id in dist && Near(dist[id]) && forall j :: j in dist ==> dist[j] >= -TOLERANCE
    ensures AlwaysFound(dist, id, k) <==>
      |Rivals(dist, id)| < k || (|Rivals(dist, id)| < k * 20 && !ZeroFits(dist, id, k))
  {
    hide Nearest, Near, ZeroFits, Rivals, Verdict;
    if |Rivals(dist, id)| < k || (|Rivals(dist, id)| < k * 20 && !ZeroFits(dist, id, k)) {
      forall ask: nat -> Answer | Nearest(ask(k), dist, k) && Nearest(ask(k * 20), dist, k * 20)
        ensures Verdict(ask, id, k)
      {
        FoundWhenFits(ask, dist, id, k);
      }
    } else {
      var ask := MissedElse(dist, id, k);
    }
  }

  // ---- it can fail on a row that is indexed

  /** The rows `0` to `k`, each at exactly no distance. */
  function Twins(k: nat): (dist: map<nat, real>)
    ensures forall id: nat :: id in dist <==> id <= k
    ensures forall id :: id in dist ==> dist[id] == 0.0
  {
    if k == 0 then map[0 := 0.0] else Twins(k - 1)[k := 0.0]
  }

  function TwinPage(k: nat): Answer {
    Page(seq(k, i requires 0 <= i < k => Hit(i, Some(0.0))))
  }

  lemma {:induction false} TwinsCount(k: nat)
    ensures |Twins(k)| == k + 1 && Twins(k).Keys == Ties(Twins(k))
  {
    if k > 0 {
      TwinsCount(k - 1);
      assert k !in Twins(k - 1);
    }
  }

  /** For every page size: one row more than a page, all at exactly nought, and the last of them is not found. */
  lemma TwinsFail(k: nat, wide: Answer)
    requires k > 0
    ensures var ask := (kk: nat) => if kk == k then TwinPage(k) else wide;
      && Nearest(ask(k), Twins(k), k) && k in Twins(k) && Near(Twins(k)[k]) && |Ties(Twins(k))| <= k * 20
      && !Verdict(ask, k, k)
  {
    TwinsCount(k);
    var hits := TwinPage(k).hits;
    assert |hits| == k && forall i :: 0 <= i < k ==> hits[i] == Hit(i, Some(0.0));
    assert !Holds(hits, k);
    assert !Near(OrOne(hits[0].distance));
  }
}
