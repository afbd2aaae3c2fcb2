/** nanoflann's KNNResultSet: the k nearest indices seen so far, in two sorted arrays. */
module NanoResultSet {
  import opened KNearest

  type Hit = Cand<int>

  /** A candidate goes behind everything that is not farther. */
  function Insert(s: seq<Hit>, c: Hit): (r: seq<Hit>)
    ensures |r| == |s| + 1
  {
    if s == [] then [c]
    else if s[|s| - 1].dist > c.dist then Insert(s[..|s| - 1], c) + [s[|s| - 1]]
    else s + [c]
  }

  /** Insertion into a set of bounded size drops what no longer fits. */
  function Inserted(s: seq<Hit>, c: Hit, capacity: nat): (r: seq<Hit>)
    ensures |r| == Least(capacity, |s| + 1)
  {
    Insert(s, c)[..Least(capacity, |s| + 1)]
  }

  lemma {:induction false} InsertIs(s: seq<Hit>, c: Hit, p: nat)
    requires p <= |s| && (p > 0 ==> s[p - 1].dist <= c.dist) && forall j :: p <= j < |s| ==> s[j].dist > c.dist
    ensures Insert(s, c) == s[..p] + [c] + s[p..]
    decreases |s|
  {
    if p < |s| {
      var n := |s| - 1;
      InsertIs(s[..n], c, p);
      assert s[..p] + [c] + s[p..] == s[..n][..p] + [c] + s[..n][p..] + [s[n]];
    }
  }

  lemma {:induction false} InsertSorts(s: seq<Hit>, c: Hit)
    requires Ascending(s)
    ensures Ascending(Insert(s, c)) && multiset(Insert(s, c)) == multiset(s) + multiset{c}
    decreases |s|
  {
    if s != [] && s[|s| - 1].dist > c.dist {
      var n := |s| - 1;
      InsertSorts(s[..n], c);
      hide Insert;
      InsertLast(s, c);
      SplitLast(s);
      AppendFarthest(s[..n], c, s[n], Insert(s[..n], c));
    }
  }

  lemma AppendFarthest(s: seq<Hit>, c: Hit, w: Hit, t: seq<Hit>)
    requires Ascending(t) && multiset(t) == multiset(s) + multiset{c} && w.dist > c.dist && forall i :: 0 <= i < |s| ==>
      s[i].dist <= w.dist
    ensures Ascending(t + [w]) && multiset(t + [w]) == multiset(s) + multiset{w} + multiset{c}
  {
    forall i | 0 <= i < |t| ensures t[i].dist <= w.dist {
      assert t[i] in multiset(t);
      assert t[i] == c || t[i] in multiset(s);
    }
  }

  lemma InsertLast(s: seq<Hit>, c: Hit)
    requires s != []
    ensures var w := s[|s| - 1];
      Insert(s, c) == if w.dist > c.dist then Insert(s[..|s| - 1], c) + [w] else s + [c]
  {
  }

  lemma DropLast(t: seq<Hit>, w: Hit)
    ensures (t + [w])[..|t|] == t && multiset(t + [w]) == multiset(t) + multiset{w}
  {
  }

  lemma SplitLast(s: seq<Hit>)
    requires s != []
    ensures s == s[..|s| - 1] + [s[|s| - 1]] && multiset(s) == multiset(s[..|s| - 1]) + multiset{s[|s| - 1]}
  {
    assert s == s[..|s| - 1] + [s[|s| - 1]];
  }

  lemma MinusOne(a: multiset<Hit>, w: Hit, c: Hit)
    ensures a + multiset{c} == (a + multiset{w}) - multiset{w} + multiset{c}
  {
  }

  lemma SingleFar(d: real, c: Hit, e: real)
    requires d <= Times(e, c.dist)
    ensures forall b :: b in multiset{c} ==> d <= Times(e, b.dist)
  {
  }

  /** Inserting keeps the k nearest of everything seen, in ascending order. */
  lemma InsertedNearest(s: seq<Hit>, seen: multiset<Hit>, c: Hit, k: nat, e: real)
    requires Ascending(s) && NearestWithin(multiset(s), seen, k, e) && k >= 1
    requires c.dist >= 0.0 && e >= 1.0
    ensures Ascending(Inserted(s, c, k)) && NearestWithin(multiset(Inserted(s, c, k)), seen + multiset{c}, k, e)
  {
    hide Insert, NearestWithin, Ascending, Times, AtMost;
    SizeOfMultiset(s);
    InsertSorts(s, c);
    var t := Insert(s, c);
    if |s| < k {
      InsertBelowWithin(multiset(s), seen, k, c, e);
      assert t[..|t|] == t;
    } else {
      SizeBound(s, seen, k, e);
      InsertFull(s, seen, c, k, e);
    }
  }

  lemma SizeOfMultiset(s: seq<Hit>)
    ensures |multiset(s)| == |s|
  {
  }

  lemma SizeBound(s: seq<Hit>, seen: multiset<Hit>, k: nat, e: real)
    requires NearestWithin(multiset(s), seen, k, e)
    ensures |s| <= k
  {
    SizeOfMultiset(s);
  }

  lemma Grows(d: real, e: real)
    requires d >= 0.0 && e >= 1.0
    ensures d <= Times(e, d)
  {
    assert (e - 1.0) * d >= 0.0;
  }

  lemma InsertFull(s: seq<Hit>, seen: multiset<Hit>, c: Hit, k: nat, e: real)
    requires Ascending(s) && NearestWithin(multiset(s), seen, k, e) && |s| == k >= 1
    requires c.dist >= 0.0 && e >= 1.0
    ensures Ascending(Inserted(s, c, k)) && NearestWithin(multiset(Inserted(s, c, k)), seen + multiset{c}, k, e)
  {
    hide Times, Insert, NearestWithin, Ascending, AtMost;
    var w := s[k - 1];
    FullSet(s, k, w);
    InsertLast(s, c);
    InsertSorts(s, c);
    if w.dist > c.dist {
      var t := Insert(s[..k - 1], c);
      AscendingPrefix(s, k - 1);
      InsertSorts(s[..k - 1], c);
      DropLast(t, w);
      SplitLast(s);
      MinusOne(multiset(s[..k - 1]), w, c);
      Grows(w.dist, e);
      ReplaceFarthestWithin(multiset(s), seen, k, c, w, e);
    } else {
      DropLast(s, c);
      Grows(c.dist, e);
      SingleFar(w.dist, c, e);
      SkipFarWithin(multiset(s), seen, k, multiset{c}, w.dist, e);
    }
  }

  lemma AscendingPrefix(s: seq<Hit>, n: nat)
    requires Ascending(s) && n <= |s|
    ensures Ascending(s[..n])
  {
  }

  lemma FullSet(s: seq<Hit>, k: nat, w: Hit)
    requires Ascending(s) && |s| == k >= 1 && w == s[k - 1]
    ensures w in multiset(s) && AtMost(multiset(s), w.dist) && |multiset(s)| == k
  {
    assert w in s;
    forall a | a in multiset(s) ensures a.dist <= w.dist {
      var i :| 0 <= i < |s| && s[i] == a;
      if i < k - 1 { assert s[i].dist <= s[k - 1].dist; }
    }
  }

  class KNNResultSet {
    const indices: array<int>
    const dists: array<Ext>
    const capacity: nat
    var count: nat

    ghost predicate Valid()
      reads this, indices, dists
    {
      && indices.Length == capacity == dists.Length && count <= capacity
      && (forall i :: 0 <= i < count ==> dists[i].Fin?)
      && Ascending(Found())
      && (count < capacity ==> dists[capacity - 1].Inf?)
    }

    /** The hits kept, nearest first. */
    ghost function Found(): (s: seq<Hit>)
      reads this, indices, dists
      requires indices.Length == capacity == dists.Length && count <= capacity && forall i :: 0 <= i < count ==>
        dists[i].Fin?
      ensures |s| == count
    {
      Pairs(indices[..count], dists[..count])
    }

    /** Initialised as init does it: only the last distance, if there is one, is set to the greatest number. */
    constructor (indices: array<int>, dists: array<Ext>)
      requires indices.Length == dists.Length
      modifies dists
      ensures Valid() && Found() == [] && capacity == dists.Length && this.indices == indices && this.dists == dists
    {
      this.indices, this.dists, capacity, count := indices, dists, dists.Length, 0;
      new;
      if dists.Length > 0 { dists[dists.Length - 1] := Inf; }
    }

    method size() returns (n: nat)
      requires Valid()
      ensures n == |Found()|
    {
      n := count;
    }

    method full() returns (r: bool)
      requires Valid()
      ensures r <==> |Found()| == capacity
    {
      r := count == capacity;
    }

    /** The greatest number as long as there is room, then the distance of the farthest hit kept. */
    method worstDist() returns (w: Ext)
      requires Valid() && capacity >= 1
      ensures w.Inf? <==> |Found()| < capacity
      ensures w.Fin? ==> w.v == Found()[capacity - 1].dist && AtMost(multiset(Found()), w.v)
    {
      w := dists[capacity - 1];
      if count == capacity { FullSet(Found(), capacity, Found()[capacity - 1]); }
    }

    ghost predicate Slot(j: int, h: Hit)
      requires indices.Length == capacity == dists.Length && 0 <= j < capacity
      reads indices, dists
    {
      dists[j] == Fin(h.dist) && indices[j] == h.item
    }

    /** Moves everything farther than dist one place up; i is the place that becomes free. */
    method MakeRoom(dist: real, ghost s: seq<Hit>) returns (i: nat)
      requires indices.Length == capacity == dists.Length && indices as object != dists as object && count <= capacity
      requires |s| == count
      requires forall j :: 0 <= j < count ==> Slot(j, s[j])
      requires count < capacity ==> dists[capacity - 1].Inf?
      modifies indices, dists
      ensures i <= count && (i > 0 ==> s[i - 1].dist <= dist) && forall j :: i <= j < count ==> s[j].dist > dist
      ensures forall j :: 0 <= j < i ==> Slot(j, s[j])
      ensures forall j :: i <= j < count && j + 1 < capacity ==> Slot(j + 1, s[j])
      ensures count + 1 < capacity ==> dists[capacity - 1].Inf?
    {
      i := count;
      while i > 0
        invariant 0 <= i <= count
        invariant forall j :: 0 <= j < i ==> Slot(j, s[j])
        invariant forall j :: i <= j < count && j + 1 < capacity ==> Slot(j + 1, s[j])
        invariant forall j :: i <= j < count ==> s[j].dist > dist
        invariant count + 1 < capacity ==> dists[capacity - 1].Inf?
      {
        assert Slot(i - 1, s[i - 1]);
        if dists[i - 1].v > dist {
          if i < capacity {
            dists[i] := dists[i - 1];
            indices[i] := indices[i - 1];
          }
          i := i - 1;
        } else {
          break;
        }
      }
    }

    lemma SlotsAreFound(s: seq<Hit>)
      requires indices.Length == capacity == dists.Length && count <= capacity && |s| >= count
      requires forall j :: 0 <= j < count ==> Slot(j, s[j])
      ensures (forall i :: 0 <= i < count ==> dists[i].Fin?) && Found() == s[..count]
    {
      forall j | 0 <= j < count
        ensures dists[j].Fin? && dists[j].v == s[j].dist && indices[j] == s[j].item
      {
        assert Slot(j, s[j]);
      }
    }

    lemma InsertedSlots(s: seq<Hit>, c: Hit, i: nat, j: nat)
      requires i <= |s| && (i > 0 ==> s[i - 1].dist <= c.dist) && (forall j :: i <= j < |s| ==> s[j].dist > c.dist)
      requires j <= |s|
      ensures Insert(s, c)[j] == if j < i then s[j] else if j == i then c else s[j - 1]
    {
      InsertIs(s, c, i);
    }

    method addPoint(dist: real, index: int) returns (more: bool)
      requires Valid() && indices as object != dists as object
      modifies this`count, indices, dists
      ensures Valid() && more && Found() == Inserted(old(Found()), Cand(index, dist), capacity)
    {
      hide Insert, Ascending;
      ghost var s, c := Found(), Cand(index, dist);
      var i := MakeRoom(dist, s);
      if i < capacity {
        dists[i] := Fin(dist);
        indices[i] := index;
      }
      if count < capacity { count := count + 1; }
      ghost var t := Insert(s, c);
      forall j | 0 <= j < count ensures Slot(j, t[j]) {
        InsertedSlots(s, c, i, j);
        if j > i { assert Slot(j - 1 + 1, s[j - 1]); }
      }
      InsertSorts(s, c);
      AscendingPrefix(t, count);
      SlotsAreFound(t);
      return true;
    }
  }

  ghost function Pairs(items: seq<int>, dists: seq<Ext>): (s: seq<Hit>)
    requires |items| == |dists| && forall i :: 0 <= i < |dists| ==> dists[i].Fin?
    ensures |s| == |items| && forall i :: 0 <= i < |s| ==> s[i] == Cand(items[i], dists[i].v)
  {
    seq(|items|, i requires 0 <= i < |items| => Cand(items[i], dists[i].v))
  }
}
