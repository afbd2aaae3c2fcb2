/** Insertion sort by a key, for the places where the library sorts. */
module Sorting {

  ghost predicate SortedBy<T(!new)>(key: T -> real, s: seq<T>) {
    forall i, j :: 0 <= i < j < |s| ==> key(s[i]) <= key(s[j])
  }

  function InsertBy<T>(key: T -> real, s: seq<T>, x: T): (r: seq<T>)
    ensures |r| == |s| + 1
  {
    if s == [] then [x]
    else if key(s[|s| - 1]) <= key(x) then s + [x]
    else InsertBy(key, s[..|s| - 1], x) + [s[|s| - 1]]
  }

  function SortBy<T>(key: T -> real, s: seq<T>): (r: seq<T>)
    ensures |r| == |s|
  {
    if s == [] then [] else InsertBy(key, SortBy(key, s[..|s| - 1]), s[|s| - 1])
  }

  ghost predicate AtMostBy<T(!new)>(key: T -> real, s: seq<T>, x: T) {
    forall i :: 0 <= i < |s| ==> key(s[i]) <= key(x)
  }

  lemma AppendSorted<T(!new)>(key: T -> real, s: seq<T>, x: T)
    requires SortedBy(key, s) && AtMostBy(key, s, x)
    ensures SortedBy(key, s + [x])
  {
  }

  lemma LastIsGreatest<T(!new)>(key: T -> real, s: seq<T>)
    requires SortedBy(key, s) && s != []
    ensures SortedBy(key, s[..|s| - 1]) && AtMostBy(key, s, s[|s| - 1]) && AtMostBy(key, s[..|s| - 1], s[|s| - 1])
  {
  }

  lemma AtMostTrans<T(!new)>(key: T -> real, s: seq<T>, x: T, y: T)
    requires AtMostBy(key, s, x) && key(x) <= key(y)
    ensures AtMostBy(key, s, y)
  {
  }

  lemma {:induction false} InsertSorts<T(!new)>(key: T -> real, s: seq<T>, x: T)
    requires SortedBy(key, s)
    ensures SortedBy(key, InsertBy(key, s, x)) && multiset(InsertBy(key, s, x)) == multiset(s) + multiset{x}
    ensures forall y :: AtMostBy(key, s, y) && key(x) <= key(y) ==> AtMostBy(key, InsertBy(key, s, x), y)
    decreases |s|
  {
    hide *;
    InsertUnfold(key, s, x);
    if s == [] {
      OneSorted(key, x);
    } else {
      var n := |s| - 1;
      assert s == s[..n] + [s[n]];
      LastIsGreatest(key, s);
      if key(s[n]) <= key(x) {
        AtMostTrans(key, s, s[n], x);
        AppendSorted(key, s, x);
        AppendAtMost(key, s, x);
      } else {
        InsertSorts(key, s[..n], x);
        AppendSorted(key, InsertBy(key, s[..n], x), s[n]);
        AppendAtMost(key, InsertBy(key, s[..n], x), s[n]);
        PrefixAtMost(key, s);
      }
    }
  }

  lemma OneSorted<T(!new)>(key: T -> real, x: T)
    ensures SortedBy(key, [x]) && forall y :: key(x) <= key(y) ==> AtMostBy(key, [x], y)
  {
  }

  lemma AppendAtMost<T(!new)>(key: T -> real, s: seq<T>, x: T)
    ensures forall y :: AtMostBy(key, s, y) && key(x) <= key(y) ==> AtMostBy(key, s + [x], y)
  {
  }

  lemma PrefixAtMost<T(!new)>(key: T -> real, s: seq<T>)
    requires s != []
    ensures forall y :: AtMostBy(key, s, y) ==> AtMostBy(key, s[..|s| - 1], y) && key(s[|s| - 1]) <= key(y)
  {
  }

  lemma InsertUnfold<T>(key: T -> real, s: seq<T>, x: T)
    ensures InsertBy(key, s, x) ==
      if s == [] then [x] else if key(s[|s| - 1]) <= key(x) then s + [x]
        else InsertBy(key, s[..|s| - 1], x) + [s[|s| - 1]]
  {
  }

  lemma SortUnfold<T>(key: T -> real, s: seq<T>)
    ensures SortBy(key, s) == if s == [] then [] else InsertBy(key, SortBy(key, s[..|s| - 1]), s[|s| - 1])
  {
  }

  lemma NoneSorted<T(!new)>(key: T -> real)
    ensures SortedBy(key, [])
  {
  }

  lemma {:induction false} Sorts<T(!new)>(key: T -> real, s: seq<T>)
    ensures SortedBy(key, SortBy(key, s)) && multiset(SortBy(key, s)) == multiset(s)
    decreases |s|
  {
    hide *;
    SortUnfold(key, s);
    NoneSorted(key);
    if s != [] {
      var n := |s| - 1;
      Sorts(key, s[..n]);
      InsertSorts(key, SortBy(key, s[..n]), s[n]);
      assert s == s[..n] + [s[n]];
    }
  }
}
