/** Nearest-neighbour search over the linked nodes with the bounded heap. */
module IkdSearch {
  import opened Geometry
  import opened KNearest
  import opened ManualHeap
  import opened VisitOrder
  import opened IkdInvariant
  import opened IkdNode
  import Spec = IkdTree
  import Ops = IkdOperations

  function Gap(x: real, lo: real, hi: real): real {
    (if x < lo then (x - lo) * (x - lo) else 0.0) + (if x > hi then (x - hi) * (x - hi) else 0.0)
  }

  /** calc_box_dist: the squared distance from the query to a range. */
  function BoxDist(r: Box, q: Point): real {
    Gap(q.x, r.x0, r.x1) + Gap(q.y, r.y0, r.y1) + Gap(q.z, r.z0, r.z1)
  }

  lemma GapBound(x: real, p: real, lo: real, hi: real)
    requires lo <= p <= hi
    ensures Gap(x, lo, hi) <= (x - p) * (x - p)
  {
    if x < lo {
      assert (lo - x) * (lo - x) <= (p - x) * (p - x) by { Square(lo - x, p - x); }
    } else if x > hi {
      assert (x - hi) * (x - hi) <= (x - p) * (x - p) by { Square(x - hi, x - p); }
    } else {
      assert (x - p) * (x - p) >= 0.0;
    }
  }

  lemma Square(a: real, b: real)
    requires 0.0 <= a <= b
    ensures a * a <= b * b
  {
  }

  /** The box distance never exceeds the distance to a point of the box. */
  lemma BoxDistBound(r: Box, q: Point, p: Point)
    requires InRange(r, p)
    ensures BoxDist(r, q) <= Dist(q, p)
  {
    GapBound(q.x, p.x, r.x0, r.x1);
    GapBound(q.y, p.y, r.y0, r.y1);
    GapBound(q.z, p.z, r.z0, r.z1);
  }

  function Clamp(x: real, lo: real, hi: real): real { if x < lo then lo else if x > hi then hi else x }

  /** And it is the distance to one of them, so no greater bound would do. */
  lemma BoxDistAttained(r: Box, q: Point)
    requires r.x0 <= r.x1 && r.y0 <= r.y1 && r.z0 <= r.z1
    ensures var p := Point(Clamp(q.x, r.x0, r.x1), Clamp(q.y, r.y0, r.y1), Clamp(q.z, r.z0, r.z1), 0);
      InRange(r, p) && Dist(q, p) == BoxDist(r, q)
  {
    GapAttained(q.x, r.x0, r.x1);
    GapAttained(q.y, r.y0, r.y1);
    GapAttained(q.z, r.z0, r.z1);
    hide Gap, Clamp;
  }

  lemma GapAttained(x: real, lo: real, hi: real)
    requires lo <= hi
    ensures var p := Clamp(x, lo, hi); lo <= p <= hi && (x - p) * (x - p) == Gap(x, lo, hi)
  {
  }

  // ---------- the candidates of a multiset of points ----------

  ghost predicate IsNearBy(m: multiset<Point>, q: Point, limit: Ext, r: multiset<Candidate>) {
    forall c :: r[c] == if c.dist == Dist(q, c.item) && Within(c.dist, limit) then m[c.item] else 0
  }

  lemma {:induction false} NearByExists(m: multiset<Point>, q: Point, limit: Ext)
    ensures exists r :: IsNearBy(m, q, limit, r)
    decreases |m|
  {
    if m == multiset{} {
      assert IsNearBy(m, q, limit, multiset{});
    } else {
      hide IsNearBy;
      var p :| p in m;
      NearByExists(m - multiset{p}, q, limit);
      var r :| IsNearBy(m - multiset{p}, q, limit, r);
      OneMore(m, q, limit, p, r);
    }
  }

  lemma OneMore(m: multiset<Point>, q: Point, limit: Ext, p: Point, r: multiset<Candidate>)
    requires p in m && IsNearBy(m - multiset{p}, q, limit, r)
    ensures var c := Cand(p, Dist(q, p));
      IsNearBy(m, q, limit, if Within(c.dist, limit) then r + multiset{c} else r)
  {
    hide Dist, Within;
  }

  /** The points of m within the limit, each with its squared distance to the query. */
  ghost function NearBy(m: multiset<Point>, q: Point, limit: Ext): (r: multiset<Candidate>)
    ensures IsNearBy(m, q, limit, r)
  {
    NearByExists(m, q, limit);
    var r :| IsNearBy(m, q, limit, r);
    r
  }

  lemma NearBySum(a: multiset<Point>, b: multiset<Point>, q: Point, limit: Ext)
    ensures NearBy(a + b, q, limit) == NearBy(a, q, limit) + NearBy(b, q, limit)
  {
    hide Dist;
  }

  lemma NearByNone(q: Point, limit: Ext)
    ensures NearBy(multiset{}, q, limit) == multiset{}
  {
    hide Dist;
  }

  lemma NearByOne(p: Point, q: Point, limit: Ext)
    ensures NearBy(multiset{p}, q, limit) == if Within(Dist(q, p), limit) then multiset{Cand(p, Dist(q, p))}
      else multiset{}
  {
    hide Dist;
  }

  /** Everything live in a node is at least as far as the node's box. */
  lemma NodeBound(t: Spec.Tree, q: Point, limit: Ext)
    requires Inv(t) && Spec.Alive(t)
    ensures AtLeast(NearBy(Live(t), q, limit), BoxDist(t.range, q))
    ensures !Within(BoxDist(t.range, q), limit) ==> NearBy(Live(t), q, limit) == multiset{}
  {
    RangeTight(t);
    hide Dist, BoxDist, InRange;
    forall c | c in NearBy(Live(t), q, limit) ensures BoxDist(t.range, q) <= c.dist {
      BoxDistBound(t.range, q, c.item);
    }
    if !Within(BoxDist(t.range, q), limit) {
      forall c ensures NearBy(Live(t), q, limit)[c] == 0 {
        if c in NearBy(Live(t), q, limit) { assert BoxDist(t.range, q) <= c.dist; }
      }
    }
  }

  // ---------- trees a search may leave behind ----------

  /** Only pending deletions were pushed: same points, axes and sizes, and each node is as it was or
      has been told that it is deleted. */
  predicate Told(t: Spec.Tree, v: Spec.Tree) {
    && t.Node? == v.Node?
    && (t.Node? ==>
          && v.point == t.point && v.axis == t.axis && v.size == t.size && (t.treeDeleted ==> v.treeDeleted)
          && (v.treeDeleted || v.invalid == t.invalid)
          && Told(t.left, v.left) && Told(t.right, v.right))
  }

  /** Same live points, same aggregates, same nodes. */
  ghost predicate Kept(t: Spec.Tree, v: Spec.Tree) {
    Inv(v) && Ops.Alike(t, v) && Told(t, v)
  }

  lemma {:induction false} ToldSelf(t: Spec.Tree)
    ensures Told(t, t)
  {
    if t.Node? {
      ToldSelf(t.left);
      ToldSelf(t.right);
    }
  }

  lemma {:induction false} ToldTrans(t: Spec.Tree, u: Spec.Tree, v: Spec.Tree)
    requires Told(t, u) && Told(u, v)
    ensures Told(t, v)
  {
    if t.Node? {
      ToldTrans(t.left, u.left, v.left);
      ToldTrans(t.right, u.right, v.right);
    }
  }

  lemma PushToTold(del: bool, down: bool, c: Spec.Tree)
    requires c.Node? && (down ==> del) && (!del ==> FreshLeaf(c))
    ensures Told(c, Spec.PushTo(del, down, c))
  {
    ToldSelf(c.left);
    ToldSelf(c.right);
  }

  lemma PushDownTold(t: Spec.Tree)
    requires t.Node? && Inv(t)
    ensures Told(t, Spec.PushDown(t))
  {
    ToldSelf(t.left);
    ToldSelf(t.right);
    if t.left.Node? && t.pushLeft { PushToTold(t.treeDeleted, t.treeDown, t.left); }
    if t.right.Node? && t.pushRight { PushToTold(t.treeDeleted, t.treeDown, t.right); }
    hide Spec.PushTo;
  }

  lemma PushDownAlike(t: Spec.Tree)
    requires t.Node? && Inv(t)
    ensures Inv(Spec.PushDown(t)) && Ops.Alike(t, Spec.PushDown(t)) && Settled(Spec.PushDown(t))
  {
    hide Inv, Live, Spec.PushDown;
    PushDownKeeps(t);
  }

  lemma PushDownKept(t: Spec.Tree)
    requires t.Node? && Inv(t)
    ensures Kept(t, Spec.PushDown(t)) && Settled(Spec.PushDown(t))
  {
    hide Inv, Live, Told, Spec.PushDown, Ops.Alike, Settled;
    PushDownTold(t);
    PushDownAlike(t);
  }

  lemma ReplaceKept(u: Spec.Tree, l: Spec.Tree, r: Spec.Tree)
    requires u.Node? && Inv(u) && Settled(u) && Kept(u.left, l) && Kept(u.right, r)
    ensures var v := u.(left := l, right := r); Kept(u, v) && Settled(v)
  {
    Ops.ReplaceChildren(u, l, r);
    hide Ops.Alike, NodeOk, Live;
  }

  lemma KeptTrans(t: Spec.Tree, u: Spec.Tree, v: Spec.Tree)
    requires Kept(t, u) && Kept(u, v)
    ensures Kept(t, v)
  {
    ToldTrans(t, u, v);
  }

  lemma KeptSelf(t: Spec.Tree)
    requires Inv(t)
    ensures Kept(t, t)
  {
    ToldSelf(t);
  }

  // ---------- the search on trees ----------

  function DistTo(t: Spec.Tree, point: Point): Ext {
    if t.Nil? then Inf else Fin(BoxDist(t.range, point))
  }

  /** The heap after the point of the node itself. */
  function OwnOffered(u: Spec.Tree, k: nat, point: Point, limit: Ext, s: seq<Candidate>): (r: seq<Candidate>)
    requires u.Node? && k >= 1 && |s| <= k
    ensures |r| <= k
  {
    if !u.pointDeleted && Within(Dist(point, u.point), limit) then Offer(s, k, Cand(u.point, Dist(point, u.point)))
      else s
  }

  /** Branch-and-bound: the tree with what was pushed down on the way, and the heap. */
  function SearchNearest(t: Spec.Tree, k: nat, point: Point, limit: Ext,
                         s: seq<Candidate>): (r: (Spec.Tree, seq<Candidate>))
    requires k >= 1 && |s| <= k
    ensures |r.1| <= k
    decreases Spec.Count(t), 1
  {
    if !Spec.Alive(t) || !NoFarther(DistTo(t, point), limit) then (t, s)
    else SearchBoth(Spec.PushDown(t), k, point, limit, OwnOffered(Spec.PushDown(t), k, point, limit, s))
  }

  /** Both children, the nearer box first while the heap is not yet settled. */
  function SearchBoth(u: Spec.Tree, k: nat, point: Point, limit: Ext,
                      s: seq<Candidate>): (r: (Spec.Tree, seq<Candidate>))
    requires u.Node? && k >= 1 && |s| <= k
    ensures |r.1| <= k
    decreases Spec.Count(u), 0
  {
    var dl, dr := DistTo(u.left, point), DistTo(u.right, point);
    if Worth(s, k, dl) && Worth(s, k, dr) && !NoFarther(dl, dr) then
      var r := Visit(u.right, true, k, point, limit, s);
      var l := Visit(u.left, Worth(r.1, k, dl), k, point, limit, r.1);
      (u.(left := l.0, right := r.0), l.1)
    else
      var l := Visit(u.left, Worth(s, k, dl), k, point, limit, s);
      var r := Visit(u.right, Worth(l.1, k, dr), k, point, limit, l.1);
      (u.(left := l.0, right := r.0), r.1)
  }

  function Visit(c: Spec.Tree, go: bool, k: nat, point: Point, limit: Ext,
                 s: seq<Candidate>): (r: (Spec.Tree, seq<Candidate>))
    requires k >= 1 && |s| <= k
    ensures |r.1| <= k
    decreases Spec.Count(c), 2
  {
    if go then SearchNearest(c, k, point, limit, s) else (c, s)
  }

  /** Whatever the heap holds, a search only pushes deletions down. */
  lemma {:induction false} SearchKept(t: Spec.Tree, k: nat, point: Point, limit: Ext, s: seq<Candidate>)
    requires Inv(t) && k >= 1 && |s| <= k
    ensures Kept(t, SearchNearest(t, k, point, limit, s).0)
    decreases Spec.Count(t), 1
  {
    if !Spec.Alive(t) || !NoFarther(DistTo(t, point), limit) {
      KeptSelf(t);
    } else {
      var u := Spec.PushDown(t);
      PushDownKept(t);
      var r := SearchNearest(t, k, point, limit, s).0;
      assert r == SearchBoth(u, k, point, limit, OwnOffered(u, k, point, limit, s)).0;
      hide SearchNearest, SearchBoth, OwnOffered, DistTo, Kept, Inv, Settled, Spec.PushDown;
      KeptMeans(t, u);
      BothKept(u, k, point, limit, OwnOffered(u, k, point, limit, s));
      KeptTrans(t, u, r);
    }
  }

  lemma {:induction false} BothKept(u: Spec.Tree, k: nat, point: Point, limit: Ext, s: seq<Candidate>)
    requires u.Node? && Inv(u) && Settled(u) && k >= 1 && |s| <= k
    ensures Kept(u, SearchBoth(u, k, point, limit, s).0)
    decreases Spec.Count(u), 0
  {
    hide Kept, DistTo, Worth, Visit, Settled;
    var dl, dr := DistTo(u.left, point), DistTo(u.right, point);
    if Worth(s, k, dl) && Worth(s, k, dr) && !NoFarther(dl, dr) {
      var r := Visit(u.right, true, k, point, limit, s);
      var l := Visit(u.left, Worth(r.1, k, dl), k, point, limit, r.1);
      VisitKept(u.right, true, k, point, limit, s);
      VisitKept(u.left, Worth(r.1, k, dl), k, point, limit, r.1);
      ReplaceKept(u, l.0, r.0);
    } else {
      var l := Visit(u.left, Worth(s, k, dl), k, point, limit, s);
      var r := Visit(u.right, Worth(l.1, k, dr), k, point, limit, l.1);
      VisitKept(u.left, Worth(s, k, dl), k, point, limit, s);
      VisitKept(u.right, Worth(l.1, k, dr), k, point, limit, l.1);
      ReplaceKept(u, l.0, r.0);
    }
  }

  lemma {:induction false} VisitKept(c: Spec.Tree, go: bool, k: nat, point: Point, limit: Ext, s: seq<Candidate>)
    requires Inv(c) && k >= 1 && |s| <= k
    ensures Kept(c, Visit(c, go, k, point, limit, s).0)
    decreases Spec.Count(c), 2
  {
    hide Kept, SearchNearest;
    if go { SearchKept(c, k, point, limit, s); } else { KeptSelf(c); }
  }

  lemma KeptMeans(t: Spec.Tree, u: Spec.Tree)
    requires Kept(t, u)
    ensures Inv(u) && Live(t) == Live(u)
  {
  }

  lemma OwnHolds(cut: Ext, u: Spec.Tree, k: nat, point: Point, limit: Ext, s: seq<Candidate>, seen: multiset<Candidate>)
    requires u.Node? && Holds(cut, s, seen, k) && |s| <= k && Fit(cut, seen + NearBy(Own(u), point, limit), k)
    ensures Holds(cut, OwnOffered(u, k, point, limit, s), seen + NearBy(Own(u), point, limit), k)
  {
    hide Dist, Holds, Fit, Offer;
    NearByOne(u.point, point, limit);
    NearByNone(point, limit);
    if !u.pointDeleted && Within(Dist(point, u.point), limit) {
      OfferHolds(cut, s, seen, k, Cand(u.point, Dist(point, u.point)));
    } else {
      assert seen + multiset{} == seen;
    }
  }

  /** A subtree pruned because the heap is full and the subtree's box is no nearer than its top. */
  lemma Pruned(cut: Ext, c: Spec.Tree, k: nat, point: Point, limit: Ext, s: seq<Candidate>, seen: multiset<Candidate>)
    requires Inv(c) && Holds(cut, s, seen, k) && |s| <= k && !Worth(s, k, DistTo(c, point))
    ensures Holds(cut, s, seen + NearBy(Live(c), point, limit), k)
  {
    hide BoxDist, Holds, NearBy;
    if Spec.Alive(c) {
      NodeBound(c, point, limit);
    } else {
      NearByNone(point, limit);
    }
    SkipHolds(cut, s, seen, k, NearBy(Live(c), point, limit)) by { assert k >= 1 by { HoldsSome(cut, s, seen, k); } }
  }

  lemma HoldsSome(cut: Ext, s: seq<Candidate>, seen: multiset<Candidate>, k: nat)
    requires Holds(cut, s, seen, k)
    ensures k >= 1 && |s| <= k
  {
  }

  /** The search refines offering every live point of the subtree within the limit: the heap holds what
      it held and those, whatever the order in which the tree brings them and whatever is pruned. */
  lemma {:induction false} SearchHolds(cut: Ext, t: Spec.Tree, k: nat, point: Point, limit: Ext, s: seq<Candidate>,
                                       seen: multiset<Candidate>)
    requires Inv(t) && Holds(cut, s, seen, k) && k >= 1 && |s| <= k && Fit(cut, seen + NearBy(Live(t), point, limit), k)
    ensures Holds(cut, SearchNearest(t, k, point, limit, s).1, seen + NearBy(Live(t), point, limit), k)
    decreases Spec.Count(t), 1
  {
    if !Spec.Alive(t) || !NoFarther(DistTo(t, point), limit) {
      NothingNear(t, point, limit);
      assert seen + multiset{} == seen;
    } else {
      SearchIs(t, k, point, limit, s);
      hide *;
      Ops.AliveNode(t);
      var u := Spec.PushDown(t);
      PushDownKept(t);
      KeptMeans(t, u);
      NearSplits(u, point, limit, seen);
      var own := NearBy(Own(u), point, limit);
      FitSub(cut, seen + own, seen + NearBy(Live(t), point, limit), k);
      OwnHolds(cut, u, k, point, limit, s, seen);
      BothHolds(cut, u, k, point, limit, OwnOffered(u, k, point, limit, s), seen + own);
    }
  }

  lemma NothingNear(t: Spec.Tree, point: Point, limit: Ext)
    requires Inv(t) && (!Spec.Alive(t) || !NoFarther(DistTo(t, point), limit))
    ensures NearBy(Live(t), point, limit) == multiset{}
  {
    hide BoxDist, NearBy;
    if Spec.Alive(t) { NodeBound(t, point, limit); } else { NearByNone(point, limit); }
  }

  lemma SearchIs(t: Spec.Tree, k: nat, point: Point, limit: Ext, s: seq<Candidate>)
    requires Spec.Alive(t) && NoFarther(DistTo(t, point), limit) && k >= 1 && |s| <= k
    ensures SearchNearest(t, k, point, limit, s) ==
      SearchBoth(Spec.PushDown(t), k, point, limit, OwnOffered(Spec.PushDown(t), k, point, limit, s))
    ensures t.Node? && Spec.Count(Spec.PushDown(t)) == Spec.Count(t)
  {
    hide SearchBoth, OwnOffered;
  }

  lemma {:induction false} BothHolds(cut: Ext, u: Spec.Tree, k: nat, point: Point, limit: Ext, s: seq<Candidate>,
                                     seen: multiset<Candidate>)
    requires u.Node? && Inv(u) && Settled(u) && Holds(cut, s, seen, k) && k >= 1 && |s| <= k
    requires Fit(cut, seen + NearBy(Live(u.left), point, limit) + NearBy(Live(u.right), point, limit), k)
    ensures Holds(cut, SearchBoth(u, k, point, limit, s).1,
      seen + NearBy(Live(u.left), point, limit) + NearBy(Live(u.right), point, limit), k)
    decreases Spec.Count(u), 0
  {
    InvChildren(u);
    assert Spec.Count(u.left) < Spec.Count(u) && Spec.Count(u.right) < Spec.Count(u);
    hide Holds, Fit, DistTo, Worth, Visit, NearBy, Live, Inv, Settled;
    var near, far := NearBy(Live(u.left), point, limit), NearBy(Live(u.right), point, limit);
    var dl, dr := DistTo(u.left, point), DistTo(u.right, point);
    assert seen + near + far == seen + far + near;
    FitSub(cut, seen + near, seen + near + far, k);
    FitSub(cut, seen + far, seen + near + far, k);
    if Worth(s, k, dl) && Worth(s, k, dr) && !NoFarther(dl, dr) {
      var r := Visit(u.right, true, k, point, limit, s);
      VisitHolds(cut, u.right, true, k, point, limit, s, seen);
      VisitHolds(cut, u.left, Worth(r.1, k, dl), k, point, limit, r.1, seen + far);
    } else {
      var l := Visit(u.left, Worth(s, k, dl), k, point, limit, s);
      VisitHolds(cut, u.left, Worth(s, k, dl), k, point, limit, s, seen);
      VisitHolds(cut, u.right, Worth(l.1, k, dr), k, point, limit, l.1, seen + near);
    }
  }

  lemma {:induction false} VisitHolds(cut: Ext, c: Spec.Tree, go: bool, k: nat, point: Point, limit: Ext,
                                      s: seq<Candidate>, seen: multiset<Candidate>)
    requires Inv(c) && Holds(cut, s, seen, k) && k >= 1 && |s| <= k && Fit(cut, seen + NearBy(Live(c), point, limit), k)
    requires !go ==> !Worth(s, k, DistTo(c, point))
    ensures Holds(cut, Visit(c, go, k, point, limit, s).1, seen + NearBy(Live(c), point, limit), k)
    decreases Spec.Count(c), 2
  {
    hide Holds, Fit, DistTo, Worth, SearchNearest, NearBy, Live, Inv;
    if go { SearchHolds(cut, c, k, point, limit, s, seen); } else { Pruned(cut, c, k, point, limit, s, seen); }
  }

  lemma NearSplits(u: Spec.Tree, point: Point, limit: Ext, seen: multiset<Candidate>)
    requires u.Node? && Inv(u) && Settled(u)
    ensures var own, l, r := NearBy(Own(u), point, limit), NearBy(Live(u.left), point, limit),
      NearBy(Live(u.right), point, limit);
      seen + NearBy(Live(u), point, limit) == seen + own + l + r && seen + own <= seen + NearBy(Live(u), point, limit)
  {
    LiveSplits(u);
    hide Live, Inv, NearBy, Dist, Own;
    NearBySum(Own(u) + Live(u.left), Live(u.right), point, limit);
    NearBySum(Own(u), Live(u.left), point, limit);
    var own, l, r := NearBy(Own(u), point, limit), NearBy(Live(u.left), point, limit),
      NearBy(Live(u.right), point, limit);
    assert seen + NearBy(Live(u), point, limit) == seen + own + l + r;
  }

  lemma InvChildren(u: Spec.Tree)
    requires u.Node? && Inv(u)
    ensures Inv(u.left) && Inv(u.right)
  {
  }

  // ---------- the search on nodes ----------

  method calc_box_dist(node: KD_TREE_NODE?, point: Point) returns (d: Ext)
    requires node != null ==> node.Valid()
    ensures d == DistTo(ViewOf(node), point)
  {
    if node == null { return Inf; }
    return Fin(BoxDist(node.node_range, point));
  }

  ghost predicate Ready(q: MANUAL_HEAP, k: nat)
    reads q, q.heap
  {
    q.Valid() && k >= 1 && q.cap == 2 * k && |q.Elements()| <= k
  }

  /** q.size() < k_nearest || dist < q.top().dist */
  method Worthwhile(q: MANUAL_HEAP, k_nearest: nat, dist: Ext) returns (go: bool)
    requires Ready(q, k_nearest)
    ensures go == Worth(q.Elements(), k_nearest, dist)
  {
    var n := q.size();
    if n < k_nearest { return true; }
    var w := q.top();
    go := Below(dist, w.dist);
  }

  /** Tests the point of the node itself. */
  method SearchOwn(root: KD_TREE_NODE, k_nearest: nat, point: Point, q: MANUAL_HEAP, max_dist_sqr: Ext)
    requires root.Valid() && Ready(q, k_nearest)
    modifies q, q.heap
    ensures q.heap == old(q.heap) && Ready(q, k_nearest) && old(root.view).Node?
    ensures q.Elements() == OwnOffered(old(root.view), k_nearest, point, max_dist_sqr, old(q.Elements()))
  {
    hide Dist, KD_TREE_NODE.Linked, Push, Pop, IsHeap;
    if root.point_deleted { return; }
    var dist := Dist(point, root.point);
    if !Within(dist, max_dist_sqr) { return; }
    var go := Worthwhile(q, k_nearest, Fin(dist));
    if go {
      var n := q.size();
      if n >= k_nearest { q.pop(); }
      q.push(Cand(root.point, dist));
    }
  }

  ghost predicate Clear(q: MANUAL_HEAP, root: KD_TREE_NODE?)
    reads q, root
  {
    q !in ReprOf(root) && q.heap !in ReprOf(root)
  }

  /** What a search leaves of the node objects and of the heap object. */
  twostate predicate Searched(root: KD_TREE_NODE?, q: MANUAL_HEAP, k: nat)
    reads q, q.heap, root, if root != null then root.Repr else {}
  {
    && (root != null ==> root.Valid() && root.Repr == old(root.Repr))
    && q.heap == old(q.heap) && Ready(q, k)
  }

  method Search(root: KD_TREE_NODE?, k_nearest: nat, point: Point, q: MANUAL_HEAP, max_dist_sqr: Ext)
    requires root != null ==> root.Valid()
    requires Clear(q, root) && Ready(q, k_nearest)
    modifies ReprOf(root), q, q.heap
    ensures Searched(root, q, k_nearest)
    ensures (ViewOf(root), q.Elements())
      == SearchNearest(old(ViewOf(root)), k_nearest, point, max_dist_sqr, old(q.Elements()))
    decreases ReprOf(root), 3
  {
    hide KD_TREE_NODE.Valid, BoxDist, SearchBoth, OwnOffered, Spec.PushDown;
    if root == null { return; }
    root.ValidIsLinked();
    if root.tree_deleted { return; }
    var cur_dist := calc_box_dist(root, point);
    if !NoFarther(cur_dist, max_dist_sqr) { return; }
    MaybePush(root);
    SearchOwn(root, k_nearest, point, q, max_dist_sqr);
    SearchChildren(root, k_nearest, point, q, max_dist_sqr);
  }

  method MaybePush(root: KD_TREE_NODE)
    requires root.Valid()
    modifies root.Repr
    ensures root.Valid() && root.Repr == old(root.Repr) && root.view == Spec.PushDown(old(root.view))
  {
    hide Spec.PushTo;
    if root.need_push_down_to_left || root.need_push_down_to_right {
      root.Push_Down();
    }
  }

  method SearchChildren(root: KD_TREE_NODE, k_nearest: nat, point: Point, q: MANUAL_HEAP, max_dist_sqr: Ext)
    requires root.Valid() && Clear(q, root) && Ready(q, k_nearest)
    modifies root.Repr, q, q.heap
    ensures Searched(root, q, k_nearest) && old(root.view).Node?
    ensures (root.view, q.Elements()) == SearchBoth(old(root.view), k_nearest, point, max_dist_sqr, old(q.Elements()))
    decreases root.Repr, 2
  {
    hide KD_TREE_NODE.Valid, DistTo, Worth, Visit;
    root.ValidIsLinked();
    var dist_left_node := calc_box_dist(root.left_son_ptr, point);
    var dist_right_node := calc_box_dist(root.right_son_ptr, point);
    var goLeft := Worthwhile(q, k_nearest, dist_left_node);
    var goRight := Worthwhile(q, k_nearest, dist_right_node);
    if goLeft && goRight && !NoFarther(dist_left_node, dist_right_node) {
      RightFirst(root, dist_left_node, k_nearest, point, q, max_dist_sqr);
    } else {
      LeftFirst(root, goLeft, dist_right_node, k_nearest, point, q, max_dist_sqr);
    }
  }

  method LeftFirst(root: KD_TREE_NODE, goLeft: bool, dist_right_node: Ext, k_nearest: nat, point: Point, q: MANUAL_HEAP,
                   max_dist_sqr: Ext)
    requires root.Valid() && Clear(q, root) && Ready(q, k_nearest)
    modifies root.Repr, q, q.heap
    ensures Searched(root, q, k_nearest) && old(root.view).Node?
    ensures var u := old(root.view);
      var l := Visit(u.left, goLeft, k_nearest, point, max_dist_sqr, old(q.Elements()));
      var r := Visit(u.right, Worth(l.1, k_nearest, dist_right_node), k_nearest, point, max_dist_sqr, l.1);
      root.view == u.(left := l.0, right := r.0) && q.Elements() == r.1
    decreases root.Repr, 1, 1
  {
    hide KD_TREE_NODE.Valid, Worth, Visit;
    VisitLeft(root, goLeft, k_nearest, point, q, max_dist_sqr);
    var goRight := Worthwhile(q, k_nearest, dist_right_node);
    VisitRight(root, goRight, k_nearest, point, q, max_dist_sqr);
  }

  method RightFirst(root: KD_TREE_NODE, dist_left_node: Ext, k_nearest: nat, point: Point, q: MANUAL_HEAP,
                    max_dist_sqr: Ext)
    requires root.Valid() && Clear(q, root) && Ready(q, k_nearest)
    modifies root.Repr, q, q.heap
    ensures Searched(root, q, k_nearest) && old(root.view).Node?
    ensures var u := old(root.view);
      var r := Visit(u.right, true, k_nearest, point, max_dist_sqr, old(q.Elements()));
      var l := Visit(u.left, Worth(r.1, k_nearest, dist_left_node), k_nearest, point, max_dist_sqr, r.1);
      root.view == u.(left := l.0, right := r.0) && q.Elements() == l.1
    decreases root.Repr, 1, 1
  {
    hide KD_TREE_NODE.Valid, Worth, Visit;
    VisitRight(root, true, k_nearest, point, q, max_dist_sqr);
    var goLeft := Worthwhile(q, k_nearest, dist_left_node);
    VisitLeft(root, goLeft, k_nearest, point, q, max_dist_sqr);
  }

  method VisitLeft(root: KD_TREE_NODE, go: bool, k_nearest: nat, point: Point, q: MANUAL_HEAP, max_dist_sqr: Ext)
    requires root.Valid() && Clear(q, root) && Ready(q, k_nearest)
    modifies root.Repr, q, q.heap
    ensures Searched(root, q, k_nearest) && old(root.view).Node?
    ensures var v := Visit(old(root.view).left, go, k_nearest, point, max_dist_sqr, old(q.Elements()));
      root.view == old(root.view).(left := v.0) && q.Elements() == v.1
    decreases root.Repr, 1, 0
  {
    hide KD_TREE_NODE.Valid, SearchNearest;
    root.ValidIsLinked();
    if go {
      Search(root.left_son_ptr, k_nearest, point, q, max_dist_sqr);
      root.Relink();
    }
  }

  method VisitRight(root: KD_TREE_NODE, go: bool, k_nearest: nat, point: Point, q: MANUAL_HEAP, max_dist_sqr: Ext)
    requires root.Valid() && Clear(q, root) && Ready(q, k_nearest)
    modifies root.Repr, q, q.heap
    ensures Searched(root, q, k_nearest) && old(root.view).Node?
    ensures var v := Visit(old(root.view).right, go, k_nearest, point, max_dist_sqr, old(q.Elements()));
      root.view == old(root.view).(right := v.0) && q.Elements() == v.1
    decreases root.Repr, 1, 0
  {
    hide KD_TREE_NODE.Valid, SearchNearest;
    root.ValidIsLinked();
    if go {
      Search(root.right_son_ptr, k_nearest, point, q, max_dist_sqr);
      root.Relink();
    }
  }
}
