/** nanoflann's search: branch and bound with an incrementally maintained lower bound. */
module NanoSearch {
  import opened KNearest
  import opened NanoResultSet
  import opened NanoBuild

  // ---------- squared distances, coordinate by coordinate ----------

  /** accum_dist of the L2 metric. */
  function Gap(a: real, b: real): real { (a - b) * (a - b) }

  function Total(d: seq<real>): real {
    if d == [] then 0.0 else Total(d[..|d| - 1]) + d[|d| - 1]
  }

  function Gaps(vec: seq<real>, row: Row): (g: seq<real>)
    requires |vec| == |row|
    ensures |g| == |vec|
  {
    seq(|vec|, f requires 0 <= f < |vec| => Gap(vec[f], row[f]))
  }

  /** The squared distance from the query to a point. */
  function DistSq(vec: seq<real>, row: Row): real
    requires |vec| == |row|
  {
    Total(Gaps(vec, row))
  }

  /** The squared differences in the first n coordinates, added up. */
  ghost function SumOfSquares(vec: seq<real>, row: Row, n: nat): real
    requires n <= |vec| == |row|
  {
    if n == 0 then 0.0 else SumOfSquares(vec, row, n - 1) + (vec[n - 1] - row[n - 1]) * (vec[n - 1] - row[n - 1])
  }

  lemma {:induction false} TotalIs(vec: seq<real>, row: Row, n: nat)
    requires n <= |vec| == |row|
    ensures Total(Gaps(vec, row)[..n]) == SumOfSquares(vec, row, n)
  {
    if n > 0 {
      assert Gaps(vec, row)[..n][..n - 1] == Gaps(vec, row)[..n - 1];
      TotalIs(vec, row, n - 1);
    } else {
      assert Gaps(vec, row)[..n] == [];
    }
  }

  lemma DistSqIs(vec: seq<real>, row: Row)
    requires |vec| == |row|
    ensures DistSq(vec, row) == SumOfSquares(vec, row, |vec|)
  {
    TotalIs(vec, row, |vec|);
    assert Gaps(vec, row)[..|vec|] == Gaps(vec, row);
  }

  /** evalMetric: the sum, one coordinate after the other. */
  method evalMetric(vec: seq<real>, row: Row) returns (result: real)
    requires |vec| == |row|
    ensures result == DistSq(vec, row) == SumOfSquares(vec, row, |vec|)
  {
    DistSqIs(vec, row);
    hide Gap;
    ghost var g := Gaps(vec, row);
    result := 0.0;
    for i := 0 to |vec|
      invariant result == Total(g[..i])
    {
      assert g[..i + 1][..i] == g[..i];
      result := result + Gap(vec[i], row[i]);
    }
    assert g[..|vec|] == g;
  }

  lemma {:induction false} TotalBelow(a: seq<real>, b: seq<real>)
    requires |a| == |b| && forall f :: 0 <= f < |a| ==> a[f] <= b[f]
    ensures Total(a) <= Total(b)
  {
    if a != [] { TotalBelow(a[..|a| - 1], b[..|b| - 1]); }
  }

  lemma {:induction false} TotalUpdate(d: seq<real>, i: nat, x: real)
    requires i < |d|
    ensures Total(d[i := x]) == Total(d) - d[i] + x
    decreases |d|
  {
    var n := |d| - 1;
    if i < n {
      assert d[i := x][..n] == d[..n][i := x];
      TotalUpdate(d[..n], i, x);
    } else {
      assert d[i := x][..n] == d[..n];
    }
  }

  lemma {:induction false} TotalZero(d: seq<real>)
    requires forall f :: 0 <= f < |d| ==> d[f] == 0.0
    ensures Total(d) == 0.0
  {
    if d != [] { TotalZero(d[..|d| - 1]); }
  }

  lemma GapPositive(a: real, b: real)
    ensures Gap(a, b) >= 0.0
  {
  }

  lemma DistPositive(vec: seq<real>, row: Row)
    requires |vec| == |row|
    ensures DistSq(vec, row) >= 0.0
  {
    hide Gap;
    var z := seq(|vec|, _ => 0.0);
    forall f | 0 <= f < |vec| ensures z[f] <= Gaps(vec, row)[f] { GapPositive(vec[f], row[f]); }
    TotalZero(z);
    TotalBelow(z, Gaps(vec, row));
  }

  /** Moving the nearer of two values on the same side farther away widens the gap. */
  lemma GapMonotone(val: real, near: real, far: real)
    requires val <= near <= far || far <= near <= val
    ensures Gap(val, near) <= Gap(val, far)
  {
    if val <= near <= far {
      Squares(near - val, far - val);
      Flip(val, near);
      Flip(val, far);
    } else {
      Squares(val - near, val - far);
    }
  }

  lemma Squares(a: real, b: real)
    requires 0.0 <= a <= b
    ensures a * a <= b * b
  {
  }

  lemma Flip(a: real, b: real)
    ensures Gap(a, b) == (b - a) * (b - a)
  {
  }

  // ---------- candidates of a slice ----------

  /** The query has the dimension of the data and treeIndex speaks of every point of v. */
  ghost predicate QueryOk(pts: seq<Row>, dim: nat, treeIndex: seq<int>, vec: seq<real>, v: seq<nat>) {
    Valid(pts, dim, v, 0) && |vec| == dim && |treeIndex| <= |pts| && forall k :: 0 <= k < |v| ==> v[k] < |treeIndex|
  }

  ghost function HitOf(pts: seq<Row>, dim: nat, treeIndex: seq<int>, vec: seq<real>, i: nat): multiset<Hit>
    requires DataOk(pts, dim) && |vec| == dim && |treeIndex| <= |pts| && i < |treeIndex|
  {
    if treeIndex[i] == -1 then multiset{} else multiset{Cand(i, DistSq(vec, pts[i]))}
  }

  /** What the points at positions lo to hi offer; removed points offer nothing. */
  ghost function Hits(pts: seq<Row>, dim: nat, treeIndex: seq<int>, vec: seq<real>, v: seq<nat>, lo: nat,
                      hi: nat): multiset<Hit>
    requires QueryOk(pts, dim, treeIndex, vec, v) && lo <= hi <= |v|
    decreases hi - lo
  {
    if lo == hi then multiset{}
    else
      Hits(pts, dim, treeIndex, vec, v, lo, hi - 1) + HitOf(pts, dim, treeIndex, vec, v[hi - 1])
  }

  lemma {:induction false} HitsSplit(pts: seq<Row>, dim: nat, treeIndex: seq<int>, vec: seq<real>, v: seq<nat>, lo: nat,
                                     mid: nat, hi: nat)
    requires QueryOk(pts, dim, treeIndex, vec, v) && lo <= mid <= hi <= |v|
    ensures Hits(pts, dim, treeIndex, vec, v, lo, hi) == Hits(pts, dim, treeIndex, vec, v, lo, mid)
      + Hits(pts, dim, treeIndex, vec, v, mid, hi)
    decreases hi
  {
    hide HitOf;
    if mid < hi {
      HitsSplit(pts, dim, treeIndex, vec, v, lo, mid, hi - 1);
    }
  }

  /** dists bounds every coordinate gap between the query and the points of a slice from below. */
  ghost predicate Bounds(pts: seq<Row>, dim: nat, vec: seq<real>, v: seq<nat>, lo: nat, hi: nat, dists: seq<real>)
    requires Valid(pts, dim, v, 0) && |vec| == dim
  {
    && lo <= hi <= |v| && |dists| == dim
    && forall k, f {:trigger Key(pts, v[k], f)} :: lo <= k < hi && 0 <= f < dim ==>
       dists[f] <= Gap(vec[f], Key(pts, v[k], f))
  }

  /** The sum of the bounds is a lower bound for every candidate of the slice. */
  lemma {:induction false} HitsFar(pts: seq<Row>, dim: nat, treeIndex: seq<int>, vec: seq<real>, v: seq<nat>, lo: nat,
                                   hi: nat, dists: seq<real>)
    requires QueryOk(pts, dim, treeIndex, vec, v) && lo <= hi <= |v| && Bounds(pts, dim, vec, v, lo, hi, dists)
    ensures KNearest.AtLeast(Hits(pts, dim, treeIndex, vec, v, lo, hi), Total(dists))
    decreases hi - lo
  {
    hide Gap;
    if lo < hi {
      var i := v[hi - 1];
      HitsFar(pts, dim, treeIndex, vec, v, lo, hi - 1, dists);
      forall f | 0 <= f < dim ensures dists[f] <= Gaps(vec, pts[i])[f] {
        assert dists[f] <= Gap(vec[f], Key(pts, v[hi - 1], f));
      }
      TotalBelow(dists, Gaps(vec, pts[i]));
    }
  }

  lemma BoundsPart(pts: seq<Row>, dim: nat, vec: seq<real>, v: seq<nat>, lo: nat, hi: nat, a: nat, b: nat,
                   dists: seq<real>)
    requires Valid(pts, dim, v, 0) && |vec| == dim && Bounds(pts, dim, vec, v, lo, hi, dists) && lo <= a <= b <= hi
    ensures Bounds(pts, dim, vec, v, a, b, dists)
  {
    hide Gap, Key;
  }

  /** Beyond a plane on the far side, the gap to the plane bounds that coordinate's gap. */
  lemma BoundsBeyond(pts: seq<Row>, dim: nat, vec: seq<real>, v: seq<nat>, lo: nat, hi: nat, dists: seq<real>, f: nat,
                     plane: real)
    requires Valid(pts, dim, v, 0) && |vec| == dim && Bounds(pts, dim, vec, v, lo, hi, dists) && f < dim
    requires (vec[f] <= plane && AtLeastIn(pts, dim, v, lo, hi, f, plane))
      || (plane <= vec[f] && AtMostIn(pts, dim, v, lo, hi, f, plane))
    ensures Bounds(pts, dim, vec, v, lo, hi, dists[f := Gap(vec[f], plane)])
  {
    hide Gap, Key;
    forall k | lo <= k < hi ensures Gap(vec[f], plane) <= Gap(vec[f], Key(pts, v[k], f)) {
      GapMonotone(vec[f], plane, Key(pts, v[k], f));
    }
  }

  // ---------- the result set during a search ----------

  ghost predicate Holds(r: KNNResultSet, seen: multiset<Hit>, e: real)
    reads r, r.indices, r.dists
  {
    r.Valid() && r.capacity >= 1 && e >= 1.0 && r.indices as object != r.dists as object
      && NearestWithin(multiset(r.Found()), seen, r.capacity, e)
  }

  /** Nothing at distance d or more can enter a full set whose members are at most d away. */
  ghost predicate Saturated(r: KNNResultSet, w: Ext)
    reads r, r.indices, r.dists
  {
    w.Fin? ==> r.Valid() && |r.Found()| == r.capacity && KNearest.AtMost(multiset(r.Found()), w.v)
  }

  lemma InsertedBelow(s: seq<Hit>, c: Hit, k: nat, w: real)
    requires |s| == k && KNearest.AtMost(multiset(s), w) && c.dist <= w && Ascending(s)
    ensures |Inserted(s, c, k)| == k && KNearest.AtMost(multiset(Inserted(s, c, k)), w)
  {
    InsertSorts(s, c);
    var t := Insert(s, c);
    forall a | a in multiset(t[..k]) ensures a.dist <= w {
      var i :| 0 <= i < k && t[..k][i] == a;
      assert t[i] in multiset(t);
    }
  }

  lemma NoHit(m: multiset<Hit>)
    ensures m + multiset{} == m
  {
  }

  /** One candidate that beats the cached worst distance. */
  method Offer(result: KNNResultSet, dist: real, index: int, ghost worst: Ext, ghost seen: multiset<Hit>, ghost e: real)
    requires Holds(result, seen, e) && Saturated(result, worst) && dist >= 0.0 && (worst.Fin? ==> dist < worst.v)
    modifies result, result.indices, result.dists
    ensures Holds(result, seen + multiset{Cand(index, dist)}, e) && Saturated(result, worst)
  {
    hide Insert, Inserted, NearestWithin, KNearest.AtMost;
    ghost var s, c := result.Found(), Cand(index, dist);
    InsertedNearest(s, seen, c, result.capacity, e);
    if worst.Fin? { InsertedBelow(s, c, result.capacity, worst.v); }
    var more := result.addPoint(dist, index);
  }

  /** One candidate that does not: nothing is kept that is farther, so nothing changes. */
  lemma Ignore(result: KNNResultSet, c: Hit, worst: Ext, seen: multiset<Hit>, e: real)
    requires Holds(result, seen, e) && Saturated(result, worst) && worst.Fin? && worst.v <= c.dist && c.dist >= 0.0
    ensures Holds(result, seen + multiset{c}, e)
  {
    hide Times, NearestWithin, KNearest.AtMost;
    Grows(c.dist, e);
    SingleFar(worst.v, c, e);
    CountFound(result.Found());
    SkipFarWithin(multiset(result.Found()), seen, result.capacity, multiset{c}, worst.v, e);
  }

  lemma CountFound(s: seq<Hit>)
    ensures |multiset(s)| == |s|
  {
  }

  /** The scan of a leaf, against the worst distance as it was when the leaf was entered. */
  method SearchLeaf(pts: seq<Row>, dim: nat, v: seq<nat>, treeIndex: seq<int>, result: KNNResultSet, vec: seq<real>,
                    left: nat, right: nat, ghost seen: multiset<Hit>, ghost e: real)
    requires QueryOk(pts, dim, treeIndex, vec, v) && left <= right <= |v| && Holds(result, seen, e)
    modifies result, result.indices, result.dists
    ensures Holds(result, seen + Hits(pts, dim, treeIndex, vec, v, left, right), e)
  {
    hide NearestWithin, KNNResultSet.Valid, Hits, DistSq;
    NoHit(seen);
    HitsNone(pts, dim, treeIndex, vec, v, left);
    var worst_dist := WorstOf(result, seen, e);
    for i := left to right
      invariant Holds(result, seen + Hits(pts, dim, treeIndex, vec, v, left, i), e) && Saturated(result, worst_dist)
    {
      ghost var before := seen + Hits(pts, dim, treeIndex, vec, v, left, i);
      HitsNext(pts, dim, treeIndex, vec, v, left, i, seen);
      NoHit(before);
      var index := v[i];
      if treeIndex[index] != -1 {
        var dist := evalMetric(vec, pts[index]);
        DistPositive(vec, pts[index]);
        if Nearer(Fin(dist), worst_dist) {
          Offer(result, dist, index, worst_dist, before, e);
        } else {
          Ignore(result, Cand(index, dist), worst_dist, before, e);
        }
      }
    }
  }

  predicate Nearer(a: Ext, b: Ext) { b.Inf? || (a.Fin? && a.v < b.v) }

  lemma HitsNone(pts: seq<Row>, dim: nat, treeIndex: seq<int>, vec: seq<real>, v: seq<nat>, lo: nat)
    requires QueryOk(pts, dim, treeIndex, vec, v) && lo <= |v|
    ensures Hits(pts, dim, treeIndex, vec, v, lo, lo) == multiset{}
  {
  }

  lemma HitsNext(pts: seq<Row>, dim: nat, treeIndex: seq<int>, vec: seq<real>, v: seq<nat>, lo: nat, i: nat,
                 seen: multiset<Hit>)
    requires QueryOk(pts, dim, treeIndex, vec, v) && lo <= i < |v|
    ensures seen + Hits(pts, dim, treeIndex, vec, v, lo, i + 1)
      == seen + Hits(pts, dim, treeIndex, vec, v, lo, i) + HitOf(pts, dim, treeIndex, vec, v[i])
  {
    hide HitOf;
  }

  method WorstOf(result: KNNResultSet, ghost seen: multiset<Hit>, ghost e: real) returns (w: Ext)
    requires Holds(result, seen, e)
    ensures Saturated(result, w) && (w.Fin? ==> |result.Found()| == result.capacity)
  {
    w := result.worstDist();
  }

  // ---------- searchLevel ----------

  /** The state in which a subtree is searched: dists bounds each coordinate from below, mindistsq is
      its sum, and the result set holds the nearest of everything seen. */
  ghost predicate Ready(pts: seq<Row>, dim: nat, v: seq<nat>, treeIndex: seq<int>, result: KNNResultSet, vec: seq<real>,
                        lo: nat, hi: nat, mindistsq: real, dists: array<real>, seen: multiset<Hit>, e: real)
    reads result, result.indices, result.dists, dists
  {
    && QueryOk(pts, dim, treeIndex, vec, v) && lo <= hi <= |v| && Holds(result, seen, e) && dists.Length == dim
    && Bounds(pts, dim, vec, v, lo, hi, dists[..]) && mindistsq == Total(dists[..])
    && dists as object != result.indices as object && dists as object != result.dists as object
  }

  ghost predicate Searched(pts: seq<Row>, dim: nat, v: seq<nat>, treeIndex: seq<int>, result: KNNResultSet,
                           vec: seq<real>,
                           lo: nat, hi: nat, seen: multiset<Hit>, e: real)
    reads result, result.indices, result.dists
  {
    && QueryOk(pts, dim, treeIndex, vec, v) && lo <= hi <= |v|
    && Holds(result, seen + Hits(pts, dim, treeIndex, vec, v, lo, hi), e)
  }

  /** Searches a subtree: afterwards the result set holds the nearest of what was seen before and of
      the subtree's points, and dists is as it was. */
  method searchLevel(pts: seq<Row>, dim: nat, v: seq<nat>, treeIndex: seq<int>, result: KNNResultSet, vec: seq<real>,
                     node: Node,
                     mindistsq: real, dists: array<real>, epsError: real, ghost lo: nat, ghost hi: nat,
                       ghost leafMax: nat, ghost seen: multiset<Hit>)
    requires Ready(pts, dim, v, treeIndex, result, vec, lo, hi, mindistsq, dists, seen, epsError)
    requires Good(pts, dim, node, v, lo, hi, leafMax)
    modifies result, result.indices, result.dists, dists
    ensures Searched(pts, dim, v, treeIndex, result, vec, lo, hi, seen, epsError) && dists[..] == old(dists[..])
    decreases node, 1
  {
    hide Holds, Hits, Bounds, Total, AtMostIn, AtLeastIn;
    match node {
      case Leaf(left, right) =>
        SearchLeaf(pts, dim, v, treeIndex, result, vec, left, right, seen, epsError);
      case Split(idx, divlow, divhigh, child1, child2) =>
        SearchSplit(pts, dim, v, treeIndex, result, vec, node, mindistsq, dists, epsError, lo, hi, leafMax, seen);
    }
  }

  method SearchSplit(pts: seq<Row>, dim: nat, v: seq<nat>, treeIndex: seq<int>, result: KNNResultSet, vec: seq<real>,
                     node: Node,
                     mindistsq: real, dists: array<real>, epsError: real, ghost lo: nat, ghost hi: nat,
                       ghost leafMax: nat, ghost seen: multiset<Hit>)
    requires Ready(pts, dim, v, treeIndex, result, vec, lo, hi, mindistsq, dists, seen, epsError)
    requires Good(pts, dim, node, v, lo, hi, leafMax) && node.Split?
    modifies result, result.indices, result.dists, dists
    ensures Searched(pts, dim, v, treeIndex, result, vec, lo, hi, seen, epsError) && dists[..] == old(dists[..])
    decreases node, 0
  {
    hide Holds, Hits, Bounds, Total, AtMostIn, AtLeastIn, Gap;
    var idx, val := node.divfeat, vec[node.divfeat];
    var diff1, diff2 := val - node.divlow, val - node.divhigh;
    ghost var mid := End(node.child1);
    HitsJoin(pts, dim, treeIndex, vec, v, lo, mid, hi, seen);
    BoundsPart(pts, dim, vec, v, lo, hi, lo, mid, dists[..]);
    BoundsPart(pts, dim, vec, v, lo, hi, mid, hi, dists[..]);
    if diff1 + diff2 < 0.0 {
      var cut_dist := Gap(val, node.divhigh);
      searchLevel(pts, dim, v, treeIndex, result, vec, node.child1, mindistsq, dists, epsError, lo, mid, leafMax, seen);
      BoundsBeyond(pts, dim, vec, v, mid, hi, dists[..], idx, node.divhigh);
      SearchOther(pts, dim, v, treeIndex, result, vec, node.child2, mindistsq, cut_dist, idx, dists, epsError, mid, hi,
        leafMax,
        seen + Hits(pts, dim, treeIndex, vec, v, lo, mid));
    } else {
      var cut_dist := Gap(val, node.divlow);
      searchLevel(pts, dim, v, treeIndex, result, vec, node.child2, mindistsq, dists, epsError, mid, hi, leafMax, seen);
      BoundsBeyond(pts, dim, vec, v, lo, mid, dists[..], idx, node.divlow);
      SearchOther(pts, dim, v, treeIndex, result, vec, node.child1, mindistsq, cut_dist, idx, dists, epsError, lo, mid,
        leafMax,
        seen + Hits(pts, dim, treeIndex, vec, v, mid, hi));
    }
  }

  lemma HitsJoin(pts: seq<Row>, dim: nat, treeIndex: seq<int>, vec: seq<real>, v: seq<nat>, lo: nat, mid: nat, hi: nat,
                 seen: multiset<Hit>)
    requires QueryOk(pts, dim, treeIndex, vec, v) && lo <= mid <= hi <= |v|
    ensures var l, r := Hits(pts, dim, treeIndex, vec, v, lo, mid), Hits(pts, dim, treeIndex, vec, v, mid, hi);
      var all := seen + Hits(pts, dim, treeIndex, vec, v, lo, hi);
      seen + l + r == all && seen + r + l == all
  {
    hide Hits;
    HitsSplit(pts, dim, treeIndex, vec, v, lo, mid, hi);
  }

  /** The farther child: its lower bound is raised by the gap to the plane, it is searched only if
      that may still matter, and dists[idx] is put back. */
  method SearchOther(pts: seq<Row>, dim: nat, v: seq<nat>, treeIndex: seq<int>, result: KNNResultSet, vec: seq<real>,
                     otherChild: Node,
                     mindistsq: real, cut_dist: real, idx: nat, dists: array<real>, epsError: real,
                     ghost lo: nat, ghost hi: nat, ghost leafMax: nat, ghost seen: multiset<Hit>)
    requires QueryOk(pts, dim, treeIndex, vec, v) && lo <= hi <= |v| && idx < dim == dists.Length
    requires Holds(result, seen, epsError) && mindistsq == Total(dists[..])
    requires Bounds(pts, dim, vec, v, lo, hi, dists[..][idx := cut_dist])
    requires dists as object != result.indices as object && dists as object != result.dists as object
    requires Good(pts, dim, otherChild, v, lo, hi, leafMax)
    modifies result, result.indices, result.dists, dists
    ensures Searched(pts, dim, v, treeIndex, result, vec, lo, hi, seen, epsError) && dists[..] == old(dists[..])
    decreases otherChild, 2
  {
    hide Holds, Hits, Bounds, Total;
    ghost var d := dists[..];
    var dst := dists[idx];
    var mindist := mindistsq + cut_dist - dst;
    TotalUpdate(d, idx, cut_dist);
    dists[idx] := cut_dist;
    assert dists[..] == d[idx := cut_dist];
    var worst := WorstOf(result, seen, epsError);
    if NoFarther(Fin(mindist * epsError), worst) {
      searchLevel(pts, dim, v, treeIndex, result, vec, otherChild, mindist, dists, epsError, lo, hi, leafMax, seen);
    } else {
      Prune(pts, dim, v, treeIndex, result, vec, lo, hi, d[idx := cut_dist], mindist, worst, seen, epsError);
    }
    dists[idx] := dst;
    assert dists[..] == d;
  }

  /** A subtree whose lower bound, times the error factor, exceeds the worst distance kept. */
  lemma Prune(pts: seq<Row>, dim: nat, v: seq<nat>, treeIndex: seq<int>, result: KNNResultSet, vec: seq<real>, lo: nat,
              hi: nat,
              dists: seq<real>, mindist: real, worst: Ext, seen: multiset<Hit>, e: real)
    requires QueryOk(pts, dim, treeIndex, vec, v) && lo <= hi <= |v| && Holds(result, seen, e)
    requires Bounds(pts, dim, vec, v, lo, hi, dists) && mindist == Total(dists)
    requires Saturated(result, worst) && worst.Fin? && worst.v < mindist * e
    ensures Holds(result, seen + Hits(pts, dim, treeIndex, vec, v, lo, hi), e)
  {
    hide Bounds, Total, Hits, NearestWithin, KNearest.AtMost, Times;
    var far := Hits(pts, dim, treeIndex, vec, v, lo, hi);
    HitsFar(pts, dim, treeIndex, vec, v, lo, hi, dists);
    forall b | b in far ensures worst.v <= Times(e, b.dist) { ScaledBound(worst.v, mindist, b.dist, e); }
    CountFound(result.Found());
    SkipFarWithin(multiset(result.Found()), seen, result.capacity, far, worst.v, e);
  }

  lemma ScaledBound(w: real, m: real, d: real, e: real)
    requires w < m * e && m <= d && e >= 1.0
    ensures w <= Times(e, d)
  {
    var x := d - m;
    assert x * e >= 0.0;
    assert d * e == m * e + x * e;
  }

  // ---------- one index ----------

  datatype NodePtr = NULL | Ptr(node: Node)

  /** An index over some of the points: its permutation, its tree and the box around its points. */
  datatype Container = Container(vind: seq<nat>, m_size: nat, root_node: NodePtr, root_bbox: seq<Interval>)

  ghost predicate Indexed(pts: seq<Row>, dim: nat, c: Container, leafMax: nat) {
    && Valid(pts, dim, c.vind, 0)
    && if c.vind == [] then c.root_node.NULL?
       else c.m_size == |c.vind| && c.root_node.Ptr? && Good(pts, dim, c.root_node.node, c.vind, 0, |c.vind|, leafMax)
            && Tight(pts, dim, c.vind, c.root_bbox)
  }

  /** Permutes vind and builds the tree over it. */
  method buildIndex(pts: seq<Row>, dim: nat, vind: seq<nat>, leafMax: nat, old_bbox: seq<Interval>)
    returns (c: Container)
    requires Valid(pts, dim, vind, 0) && leafMax >= 1
    ensures Indexed(pts, dim, c, leafMax) && multiset(c.vind) == multiset(vind)
  {
    hide Good, Tight, Key;
    if |vind| == 0 { return Container(vind, 0, NULL, old_bbox); }
    var a := new nat[|vind|](i requires 0 <= i < |vind| => vind[i]);
    assert a[..] == vind && a[0..|vind|] == vind;
    var bbox := BoundingBox(pts, dim, a, 0, |vind|);
    TightMeans(pts, dim, vind, bbox);
    var node, box := divideTree(pts, dim, a, leafMax, 0, |vind|, bbox);
    assert a[0..|vind|] == a[..];
    c := Container(a[..], |vind|, Ptr(node), box);
  }

  /** Fills dists with the squared gaps between the query and the box and returns their sum. */
  method computeInitialDistances(dim: nat, bbox: seq<Interval>, vec: seq<real>, dists: array<real>)
    returns (distsq: real)
    requires |vec| == |bbox| == dists.Length == dim
    requires forall f :: 0 <= f < dim ==> bbox[f].low <= bbox[f].high && dists[f] == 0.0
    modifies dists
    ensures distsq == Total(dists[..])
    ensures forall f :: 0 <= f < dim ==> dists[f] == BoxGap(vec[f], bbox[f])
  {
    hide Total, Gap;
    TotalZero(dists[..]);
    distsq := 0.0;
    for i := 0 to dim
      invariant distsq == Total(dists[..])
      invariant forall f :: 0 <= f < i ==> dists[f] == BoxGap(vec[f], bbox[f])
      invariant forall f :: i <= f < dim ==> dists[f] == 0.0
    {
      ghost var d := dists[..];
      if vec[i] < bbox[i].low {
        dists[i] := Gap(vec[i], bbox[i].low);
        distsq := distsq + dists[i];
      }
      if vec[i] > bbox[i].high {
        dists[i] := Gap(vec[i], bbox[i].high);
        distsq := distsq + dists[i];
      }
      assert dists[..] == d[i := dists[i]];
      TotalUpdate(d, i, dists[i]);
    }
  }

  function BoxGap(x: real, side: Interval): real {
    if x < side.low then Gap(x, side.low) else if x > side.high then Gap(x, side.high) else 0.0
  }

  lemma BoxBounds(pts: seq<Row>, dim: nat, v: seq<nat>, bbox: seq<Interval>, vec: seq<real>, dists: seq<real>)
    requires Valid(pts, dim, v, 0) && Tight(pts, dim, v, bbox) && |vec| == |bbox| == |dists| == dim
    requires forall f :: 0 <= f < dim ==> dists[f] == BoxGap(vec[f], bbox[f])
    ensures Bounds(pts, dim, vec, v, 0, |v|, dists)
  {
    hide Gap, Key;
    forall k, f {:trigger Key(pts, v[k], f)} | 0 <= k < |v| && 0 <= f < dim
      ensures dists[f] <= Gap(vec[f], Key(pts, v[k], f))
    {
      var x := Key(pts, v[k], f);
      assert Extremes(pts, dim, v, f, bbox[f].low, bbox[f].high);
      assert bbox[f].low <= x <= bbox[f].high;
      GapPositive(vec[f], x);
      if vec[f] < bbox[f].low {
        GapMonotone(vec[f], bbox[f].low, x);
      } else if vec[f] > bbox[f].high {
        GapMonotone(vec[f], bbox[f].high, x);
      }
    }
  }

  lemma TightSides(pts: seq<Row>, dim: nat, v: seq<nat>, bbox: seq<Interval>)
    requires Valid(pts, dim, v, 0) && |v| > 0 && Tight(pts, dim, v, bbox)
    ensures |bbox| == dim && forall f :: 0 <= f < dim ==> bbox[f].low <= bbox[f].high
  {
    forall f | 0 <= f < dim ensures bbox[f].low <= bbox[f].high {
      MinBelowMax(pts, dim, v, f, bbox[f].low, bbox[f].high);
    }
  }

  /** Adds the candidates of one index to the result set. */
  method findNeighbors(pts: seq<Row>, dim: nat, c: Container, treeIndex: seq<int>, result: KNNResultSet, vec: seq<real>,
                       eps: real,
                       ghost leafMax: nat, ghost seen: multiset<Hit>) returns (full: bool)
    requires Indexed(pts, dim, c, leafMax) && QueryOk(pts, dim, treeIndex, vec, c.vind) && eps >= 0.0
    requires Holds(result, seen, 1.0 + eps)
    modifies result, result.indices, result.dists
    ensures Holds(result, seen + Hits(pts, dim, treeIndex, vec, c.vind, 0, |c.vind|), 1.0 + eps)
    ensures result.Valid() && (full <==> c.vind != [] && |result.Found()| == result.capacity)
  {
    hide Good, Tight, Holds, Hits, Bounds, Total, BoxGap;
    HitsNone(pts, dim, treeIndex, vec, c.vind, 0);
    NoHit(seen);
    HoldsValid(result, seen, 1.0 + eps);
    if c.m_size == 0 { return false; }
    if c.root_node.NULL? { return false; }
    var epsError := 1.0 + eps;
    var dists := new real[dim](_ => 0.0);
    TightSides(pts, dim, c.vind, c.root_bbox);
    var distsq := computeInitialDistances(dim, c.root_bbox, vec, dists);
    BoxBounds(pts, dim, c.vind, c.root_bbox, vec, dists[..]);
    searchLevel(pts, dim, c.vind, treeIndex, result, vec, c.root_node.node, distsq, dists, epsError, 0, |c.vind|,
      leafMax, seen);
    full := IsFull(result, seen + Hits(pts, dim, treeIndex, vec, c.vind, 0, |c.vind|), epsError);
  }

  lemma HoldsValid(result: KNNResultSet, seen: multiset<Hit>, e: real)
    requires Holds(result, seen, e)
    ensures result.Valid()
  {
  }

  method IsFull(result: KNNResultSet, ghost seen: multiset<Hit>, ghost e: real) returns (r: bool)
    requires Holds(result, seen, e)
    ensures result.Valid() && (r <==> |result.Found()| == result.capacity)
  {
    r := result.full();
  }

  // ---------- the whole data set ----------

  ghost predicate IsHit(pts: seq<Row>, dim: nat, treeIndex: seq<int>, vec: seq<real>, c: Hit)
    requires DataOk(pts, dim) && |vec| == dim && |treeIndex| <= |pts|
  {
    0 <= c.item < |treeIndex| && treeIndex[c.item] != -1 && c.dist == DistSq(vec, pts[c.item])
  }

  /** A slice offers each of its points that is not removed, as often as it holds it. */
  lemma {:induction false} HitsCount(pts: seq<Row>, dim: nat, treeIndex: seq<int>, vec: seq<real>, v: seq<nat>, n: nat,
                                     c: Hit)
    requires QueryOk(pts, dim, treeIndex, vec, v) && n <= |v|
    ensures Hits(pts, dim, treeIndex, vec, v, 0, n)[c] == if IsHit(pts, dim, treeIndex, vec, c) then
      multiset(v[..n])[c.item] else 0
    decreases n
  {
    hide DistSq, HitOf, IsHit;
    if n > 0 {
      HitsCount(pts, dim, treeIndex, vec, v, n - 1, c);
      HitOfCount(pts, dim, treeIndex, vec, v[n - 1], c);
      assert v[..n] == v[..n - 1] + [v[n - 1]];
    }
  }

  lemma HitOfCount(pts: seq<Row>, dim: nat, treeIndex: seq<int>, vec: seq<real>, i: nat, c: Hit)
    requires DataOk(pts, dim) && |vec| == dim && |treeIndex| <= |pts| && i < |treeIndex|
    ensures HitOf(pts, dim, treeIndex, vec, i)[c] == if c.item == i && IsHit(pts, dim, treeIndex, vec, c) then 1 else 0
  {
    hide DistSq;
  }

  lemma HitsPermute(pts: seq<Row>, dim: nat, treeIndex: seq<int>, vec: seq<real>, v: seq<nat>, w: seq<nat>)
    requires QueryOk(pts, dim, treeIndex, vec, v) && QueryOk(pts, dim, treeIndex, vec, w) && multiset(v) == multiset(w)
    ensures Hits(pts, dim, treeIndex, vec, v, 0, |v|) == Hits(pts, dim, treeIndex, vec, w, 0, |w|)
  {
    hide Hits, IsHit;
    assert v[..|v|] == v && w[..|w|] == w;
    forall c ensures Hits(pts, dim, treeIndex, vec, v, 0, |v|)[c] == Hits(pts, dim, treeIndex, vec, w, 0, |w|)[c] {
      HitsCount(pts, dim, treeIndex, vec, v, |v|, c);
      HitsCount(pts, dim, treeIndex, vec, w, |w|, c);
    }
  }

  function Range(n: nat): (s: seq<nat>)
    ensures |s| == n && forall i :: 0 <= i < n ==> s[i] == i
  {
    seq(n, i requires 0 <= i < n => i)
  }

  /** Every point that is not removed, with its distance: what a brute-force scan would see. */
  ghost function Everything(pts: seq<Row>, dim: nat, treeIndex: seq<int>, vec: seq<real>): multiset<Hit>
    requires DataOk(pts, dim) && |vec| == dim && |treeIndex| <= |pts|
  {
    Hits(pts, dim, treeIndex, vec, Range(|treeIndex|), 0, |treeIndex|)
  }

  /** The brute-force answer lists every point that is not removed exactly once. */
  lemma EverythingIs(pts: seq<Row>, dim: nat, treeIndex: seq<int>, vec: seq<real>, c: Hit)
    requires DataOk(pts, dim) && |vec| == dim && |treeIndex| <= |pts|
    ensures Everything(pts, dim, treeIndex, vec)[c] == if IsHit(pts, dim, treeIndex, vec, c) then 1 else 0
  {
    HitsCount(pts, dim, treeIndex, vec, Range(|treeIndex|), |treeIndex|, c);
    assert Range(|treeIndex|)[..|treeIndex|] == Range(|treeIndex|);
    if IsHit(pts, dim, treeIndex, vec, c) { RangeOnce(|treeIndex|, c.item); }
  }

  lemma {:induction false} RangeOnce(n: nat, i: nat)
    ensures multiset(Range(n))[i] == if i < n then 1 else 0
  {
    if n == 0 {
      assert Range(0) == [];
    } else {
      RangeOnce(n - 1, i);
      assert Range(n) == Range(n - 1) + [n - 1];
    }
  }

  lemma NearestOfNone(k: nat, e: real)
    ensures NearestWithin<int>(multiset{}, multiset{}, k, e)
  {
  }

  /** knnSearch on an index over a whole data set, none of it removed: the num_closest nearest points,
      nearest first, up to the factor 1 + eps; exactly the nearest for eps = 0. */
  method knnSearch(pts: seq<Row>, dim: nat, leafMax: nat, query_point: seq<real>, num_closest: nat, eps: real)
    returns (found: seq<Hit>)
    requires DataOk(pts, dim) && |query_point| == dim && leafMax >= 1 && num_closest >= 1 && eps >= 0.0
    ensures var all := Everything(pts, dim, Range(|pts|), query_point);
      Ascending(found) && NearestWithin(multiset(found), all, num_closest, 1.0 + eps) &&
      (eps == 0.0 ==> Nearest(multiset(found), all, num_closest))
  {
    hide NearestWithin, Nearest, Ascending, Hits, DistSq, Indexed, KNNResultSet.Valid;
    var all := Range(|pts|);
    var c := buildIndex(pts, dim, all, leafMax, []);
    var out_indices := new int[num_closest](_ => 0);
    var out_distances := new Ext[num_closest](_ => Inf);
    var resultSet := new KNNResultSet(out_indices, out_distances);
    NearestOfNone(num_closest, 1.0 + eps);
    SameIndices(pts, dim, c.vind, all);
    var full := findNeighbors(pts, dim, c, all, resultSet, query_point, eps, leafMax, multiset{});
    HitsPermute(pts, dim, all, query_point, c.vind, all);
    found := Copy(resultSet);
    WithinOne(multiset(found), Everything(pts, dim, all, query_point), num_closest);
    assert multiset{} + Everything(pts, dim, all, query_point) == Everything(pts, dim, all, query_point);
  }

  lemma SameIndices(pts: seq<Row>, dim: nat, v: seq<nat>, w: seq<nat>)
    requires Valid(pts, dim, w, 0) && multiset(v) == multiset(w)
    ensures Valid(pts, dim, v, 0)
  {
    forall k | 0 <= k < |v| ensures v[k] < |pts| { assert v[k] in multiset(w); }
  }

  method Copy(result: KNNResultSet) returns (found: seq<Hit>)
    requires result.Valid()
    ensures found == result.Found() && Ascending(found)
  {
    found := [];
    var n := result.size();
    for i := 0 to n
      invariant |found| == i && found == result.Found()[..i]
    {
      found := found + [Cand(result.indices[i], result.dists[i].v)];
    }
  }
}
