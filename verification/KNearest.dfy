/** What it means for a bounded result set to hold the k nearest of all candidates seen, whatever
    structure keeps it. Shared by the ikd-Tree's heap and by nanoflann's sorted arrays. */
module KNearest {

  datatype Cand<T> = Cand(item: T, dist: real)

  /** A squared distance or the INFINITY (the greatest number) that stands for an absent one. */
  datatype Ext = Fin(v: real) | Inf

  predicate Below(a: Ext, d: real) { a.Fin? && a.v < d }
  predicate NoFarther(a: Ext, b: Ext) { b.Inf? || (a.Fin? && a.v <= b.v) }
  predicate Within(d: real, limit: Ext) { limit.Inf? || d <= limit.v }

  function Least(a: nat, b: nat): nat { if a <= b then a else b }

  /** h holds k of the candidates (all of them if there are fewer), none farther than one left out. */
  ghost predicate Nearest<T>(h: multiset<Cand<T>>, all: multiset<Cand<T>>, k: nat) {
    && h <= all && |h| == Least(k, |all|)
    && forall a, b :: a in h && b in all - h ==> a.dist <= b.dist
  }

  ghost predicate AtLeast<T>(m: multiset<Cand<T>>, d: real) {
    forall b :: b in m ==> d <= b.dist
  }

  ghost predicate AtMost<T>(m: multiset<Cand<T>>, d: real) {
    forall a :: a in m ==> a.dist <= d
  }

  lemma NoneLeftOut<T>(h: multiset<Cand<T>>, all: multiset<Cand<T>>)
    requires h <= all && |h| == |all|
    ensures h == all
  {
    assert all == h + (all - h);
    assert |all - h| == 0;
  }

  function Times(e: real, d: real): real { e * d }

  /** The same up to a factor: nothing kept is more than e times as far as anything left out. */
  ghost predicate NearestWithin<T>(h: multiset<Cand<T>>, all: multiset<Cand<T>>, k: nat, e: real) {
    && h <= all && |h| == Least(k, |all|)
    && forall a, b :: a in h && b in all - h ==> a.dist <= Times(e, b.dist)
  }

  lemma WithinOne<T>(h: multiset<Cand<T>>, all: multiset<Cand<T>>, k: nat)
    ensures Nearest(h, all, k) <==> NearestWithin(h, all, k, 1.0)
  {
  }

  lemma InsertBelowWithin<T>(h: multiset<Cand<T>>, all: multiset<Cand<T>>, k: nat, c: Cand<T>, e: real)
    requires NearestWithin(h, all, k, e) && |h| < k
    ensures NearestWithin(h + multiset{c}, all + multiset{c}, k, e)
  {
    hide Times;
    NoneLeftOut(h, all);
    assert (all + multiset{c}) - (h + multiset{c}) == multiset{};
  }

  lemma ReplaceFarthestWithin<T>(h: multiset<Cand<T>>, all: multiset<Cand<T>>, k: nat, c: Cand<T>, w: Cand<T>, e: real)
    requires NearestWithin(h, all, k, e) && |h| == k && w in h && AtMost(h, w.dist)
    requires c.dist <= w.dist <= Times(e, w.dist)
    ensures NearestWithin(h - multiset{w} + multiset{c}, all + multiset{c}, k, e)
  {
    hide Times;
    var g, full := h - multiset{w} + multiset{c}, all + multiset{c};
    assert full - g == (all - h) + multiset{w};
    forall a, b | a in g && b in full - g ensures a.dist <= Times(e, b.dist) {
      assert b == w || b in all - h;
      assert a == c || a in h;
      if b != w { assert w.dist <= Times(e, b.dist); }
    }
  }

  lemma SkipFarWithin<T>(h: multiset<Cand<T>>, all: multiset<Cand<T>>, k: nat, far: multiset<Cand<T>>, d: real, e: real)
    requires NearestWithin(h, all, k, e) && |h| == k && AtMost(h, d) && forall b :: b in far ==> d <= Times(e, b.dist)
    ensures NearestWithin(h, all + far, k, e)
  {
    hide Times;
    assert (all + far) - h == (all - h) + far;
    forall a, b | a in h && b in (all + far) - h ensures a.dist <= Times(e, b.dist) {
      assert b in all - h || b in far;
    }
  }

  // ---------- the answer in sorted order ----------

  ghost predicate Ascending<T>(s: seq<Cand<T>>) {
    forall i, j :: 0 <= i < j < |s| ==> s[i].dist <= s[j].dist
  }

  /** The number of candidates strictly below a distance. */
  ghost function CountBelow<T>(s: seq<Cand<T>>, d: real): nat {
    if s == [] then 0 else CountBelow(s[..|s| - 1], d) + if s[|s| - 1].dist < d then 1 else 0
  }

  lemma {:induction false} BelowAscending<T>(s: seq<Cand<T>>, d: real, i: nat)
    requires Ascending(s) && i < |s|
    ensures CountBelow(s, d) <= |s|
    ensures s[i].dist < d <==> i < CountBelow(s, d)
  {
    var n := |s| - 1;
    var t := s[..n];
    if i < n {
      BelowAscending(t, d, i);
    } else if n > 0 {
      BelowAscending(t, d, n - 1);
    }
    if n > 0 && s[n].dist < d {
      BelowAscending(t, d, n - 1);
      assert t[n - 1].dist <= s[n].dist;
    }
    if n > 0 { BelowAscending(t, d, 0); }
  }

  lemma RemoveAt<T>(r: seq<T>, i: nat)
    requires i < |r|
    ensures multiset(r) == multiset(r[..i] + r[i + 1..]) + multiset{r[i]}
  {
    assert r == r[..i] + [r[i]] + r[i + 1..];
  }

  lemma {:induction false} BelowRemoveAt<T>(r: seq<Cand<T>>, i: nat, d: real)
    requires i < |r|
    ensures CountBelow(r, d) == CountBelow(r[..i] + r[i + 1..], d) + if r[i].dist < d then 1 else 0
    decreases |r|
  {
    var n := |r| - 1;
    if i < n {
      BelowRemoveAt(r[..n], i, d);
      assert (r[..i] + r[i + 1..])[..n - 1] == r[..n][..i] + r[..n][i + 1..];
    } else {
      assert r[..i] + r[i + 1..] == r[..n];
    }
  }

  lemma {:induction false} BelowOfMultiset<T>(s: seq<Cand<T>>, r: seq<Cand<T>>, d: real)
    requires multiset(s) == multiset(r)
    ensures CountBelow(s, d) == CountBelow(r, d)
    decreases |s|
  {
    hide *;
    CountLast(s, d);
    if s == [] {
      NoneBelow(r);
      CountLast(r, d);
    } else {
      var n := |s| - 1;
      var i := SameWithout(s, r, n);
      BelowRemoveAt(r, i, d);
      BelowOfMultiset(s[..n], r[..i] + r[i + 1..], d);
    }
  }

  lemma CountLast<T>(s: seq<Cand<T>>, d: real)
    ensures CountBelow(s, d) == if s == [] then 0 else CountBelow(s[..|s| - 1], d) + if s[|s| - 1].dist < d then 1
      else 0
  {
  }

  lemma NoneBelow<T>(r: seq<T>)
    requires multiset(r) == multiset{}
    ensures r == []
  {
    assert |multiset(r)| == |r|;
  }

  /** Where the last element of one list stands in a list of the same elements. */
  lemma SameWithout<T>(s: seq<T>, r: seq<T>, n: nat) returns (i: nat)
    requires multiset(s) == multiset(r) && n + 1 == |s|
    ensures i < |r| && r[i] == s[n] && multiset(s[..n]) == multiset(r[..i] + r[i + 1..])
  {
    RemoveAt(s, n);
    assert s[..n] + s[n + 1..] == s[..n];
    assert s[n] in multiset(r);
    i :| 0 <= i < |r| && r[i] == s[n];
    RemoveAt(r, i);
    assert multiset(s[..n]) == multiset(s) - multiset{s[n]} == multiset(r[..i] + r[i + 1..]);
  }

  lemma {:induction false} BelowConcat<T>(a: seq<Cand<T>>, b: seq<Cand<T>>, d: real)
    ensures CountBelow(a + b, d) == CountBelow(a, d) + CountBelow(b, d)
    decreases |b|
  {
    if b == [] {
      assert a + b == a;
    } else {
      assert (a + b)[..|a + b| - 1] == a + b[..|b| - 1];
      BelowConcat(a, b[..|b| - 1], d);
    }
  }

  /** In sorted order the k nearest are the first k distances of the sort of all candidates, and
      this determines every one of those distances. */
  lemma NearestIsPrefix<T>(r: seq<Cand<T>>, s: seq<Cand<T>>, k: nat, i: nat)
    requires Ascending(r) && Ascending(s) && Nearest(multiset(r), multiset(s), k) && i < |r|
    ensures |r| == Least(k, |s|) && r[i].dist == s[i].dist
  {
    assert |multiset(r)| == |r| && |multiset(s)| == |s|;
    var rest := SeqOf(multiset(s) - multiset(r));
    assert multiset(r + rest) == multiset(s);
    if r[i].dist < s[i].dist {
      var d := s[i].dist;
      BelowOfMultiset(r + rest, s, d);
      BelowConcat(r, rest, d);
      BelowAscending(r, d, i);
      BelowAscending(s, d, i);
    } else if s[i].dist < r[i].dist {
      var d := r[i].dist;
      BelowOfMultiset(r + rest, s, d);
      BelowConcat(r, rest, d);
      BelowAscending(r, d, i);
      BelowAscending(s, d, i);
      forall b | b in rest ensures d <= b.dist {
        assert b in multiset(s) - multiset(r) && r[i] in multiset(r);
      }
      BelowNone(rest, d);
    }
  }

  lemma {:induction false} BelowNone<T>(s: seq<Cand<T>>, d: real)
    requires forall b :: b in s ==> d <= b.dist
    ensures CountBelow(s, d) == 0
  {
    if s != [] {
      assert s[|s| - 1] in s;
      BelowNone(s[..|s| - 1], d);
    }
  }

  ghost function SeqOf<T>(m: multiset<T>): (s: seq<T>)
    ensures multiset(s) == m
    decreases |m|
  {
    if m == multiset{} then [] else
      var x :| x in m;
      SeqOf(m - multiset{x}) + [x]
  }
}
