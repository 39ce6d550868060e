/** Small facts about numbers, sets and lists that several models share. */
module Basics {
  function Least(a: nat, b: nat): nat {
    if a < b then a else b
  }

  predicate NoDuplicates<T(==)>(s: seq<T>) {
    forall i, j :: 0 <= i < j < |s| ==> s[i] != s[j]
  }

  lemma Held<T>(s: seq<T>)
    ensures s == [] || s[0] in s
  {
  }

  lemma OneAtMost<T>(s: seq<T>, x: T)
    requires NoDuplicates(s) && forall y :: y in s ==> y == x
    ensures |s| <= 1
  {
    if |s| > 1 {
      TwoDiffer(s);
    }
  }

  lemma TwoDiffer<T>(s: seq<T>)
    requires |s| > 1 && NoDuplicates(s)
    ensures exists y, z :: y in s && z in s && y != z
  {
    assert s[0] in s && s[1] in s;
  }

  lemma SubsetCount<T>(a: set<T>, b: set<T>)
    requires a <= b
    ensures |a| <= |b|
  {
    assert b == a + (b - a);
  }
}
