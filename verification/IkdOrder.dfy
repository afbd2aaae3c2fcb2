/** The k-d order of the ikd-Tree: on the axis of a node, whatever is below it on the left is not
    greater and whatever is below it on the right is not smaller, deleted or not. */
module IkdOrder {
  import opened Geometry
  import opened IkdTree
  import opened IkdInvariant
  import opened IkdOperations
  import opened IkdBalance

  /** A half-space: at most, or at least, value on an axis. */
  datatype Side = Side(axis: int, value: real, below: bool)

  predicate On(s: Side, p: Point) {
    if s.below then Coord(p, s.axis) <= s.value else Coord(p, s.axis) >= s.value
  }

  /** Every node of a tree, live or deleted, lies on one side. */
  predicate AllOn(s: Side, t: Tree) {
    t.Node? ==> On(s, t.point) && AllOn(s, t.left) && AllOn(s, t.right)
  }

  predicate Ordered(t: Tree) {
    t.Node? ==>
      && AllOn(Side(t.axis, Coord(t.point, t.axis), true), t.left)
      && AllOn(Side(t.axis, Coord(t.point, t.axis), false), t.right)
      && Ordered(t.left) && Ordered(t.right)
  }

  // ---------- what does not move points ----------

  /** The same points on the same axes at the same places. */
  predicate Same(t: Tree, v: Tree) {
    && t.Node? == v.Node?
    && (t.Node? ==> v.point == t.point && v.axis == t.axis && Same(t.left, v.left) && Same(t.right, v.right))
  }

  lemma {:induction false} SameSelf(t: Tree)
    ensures Same(t, t)
  {
    if t.Node? {
      SameSelf(t.left);
      SameSelf(t.right);
    }
  }

  lemma {:induction false} SameTrans(t: Tree, u: Tree, v: Tree)
    requires Same(t, u) && Same(u, v)
    ensures Same(t, v)
  {
    if t.Node? {
      SameTrans(t.left, u.left, v.left);
      SameTrans(t.right, u.right, v.right);
    }
  }

  lemma {:induction false} SameOn(s: Side, t: Tree, v: Tree)
    requires Same(t, v) && AllOn(s, t)
    ensures AllOn(s, v)
  {
    if t.Node? {
      SameOn(s, t.left, v.left);
      SameOn(s, t.right, v.right);
    }
  }

  lemma {:induction false} SameOrdered(t: Tree, v: Tree)
    requires Same(t, v) && Ordered(t)
    ensures Ordered(v)
  {
    hide AllOn;
    if t.Node? {
      SameOn(Side(t.axis, Coord(t.point, t.axis), true), t.left, v.left);
      SameOn(Side(t.axis, Coord(t.point, t.axis), false), t.right, v.right);
      SameOrdered(t.left, v.left);
      SameOrdered(t.right, v.right);
    }
  }

  lemma PushToSame(del: bool, down: bool, c: Tree)
    requires c.Node?
    ensures Same(c, PushTo(del, down, c))
  {
    SameSelf(c.left);
    SameSelf(c.right);
  }

  lemma PushDownSame(t: Tree)
    requires t.Node?
    ensures Same(t, PushDown(t))
  {
    SameSelf(t.left);
    SameSelf(t.right);
    if t.left.Node? { PushToSame(t.treeDeleted, t.treeDown, t.left); }
    if t.right.Node? { PushToSame(t.treeDeleted, t.treeDown, t.right); }
    hide PushTo;
  }

  lemma {:induction false} PushedSame(t: Tree)
    ensures Same(t, Pushed(t))
    decreases Count(t)
  {
    if t.Node? {
      var u := PushDown(t);
      PushDownSame(t);
      CountParts(t);
      PushedUnfold(t);
      PushedSame(u.left);
      PushedSame(u.right);
      hide PushDown, Pushed;
      SameTrans(t, u, Pushed(t));
    }
  }

  /** A range search moves no point. */
  lemma {:induction false} SearchSame(t: Tree, b: Box)
    ensures Same(t, SearchByRange(t, b).0)
    decreases Count(t)
  {
    if t.Node? {
      var u := PushDown(t);
      PushDownSame(t);
      CountParts(t);
      SearchUnfold(t, b);
      PushedSame(u);
      SearchSame(u.left, b);
      SearchSame(u.right, b);
      hide PushDown, Pushed, SearchByRange;
      SameTrans(t, u, SearchByRange(t, b).0);
    }
  }

  // ---------- rebuilding ----------

  lemma {:induction false} FlattenOn(s: Side, t: Tree)
    requires AllOn(s, t)
    ensures forall i :: 0 <= i < |Flatten(t)| ==> On(s, Flatten(t)[i])
    decreases Count(t)
  {
    if t.Node? {
      var u := PushDown(t);
      PushDownSame(t);
      SameOn(s, t, u);
      CountParts(t);
      FlattenOn(s, u.left);
      FlattenOn(s, u.right);
      hide PushDown, On;
    }
  }

  ghost predicate SeqOn(s: Side, ps: seq<Point>) { forall p :: p in multiset(ps) ==> On(s, p) }

  lemma PartOn(s: Side, ps: seq<Point>, o: seq<Point>, k: nat)
    requires SeqOn(s, ps) && multiset(o) == multiset(ps) && k < |o|
    ensures SeqOn(s, o[..k]) && On(s, o[k]) && SeqOn(s, o[k + 1..])
  {
    assert o[k] in multiset(o);
    forall p | p in multiset(o[..k]) ensures On(s, p) { assert p in o; }
    forall p | p in multiset(o[k + 1..]) ensures On(s, p) { assert p in o; }
  }

  lemma NthFacts(nth: NthElement, s: seq<Point>, k: nat, axis: int)
    requires NthOk(nth) && k < |s|
    ensures IsNth(s, k, axis, nth(s, k, axis))
  {
  }

  /** Building keeps the points where they are allowed to be. */
  lemma {:induction false} BuildOn(nth: NthElement, ps: seq<Point>, s: Side)
    requires NthOk(nth) && SeqOn(s, ps)
    ensures AllOn(s, BuildTree(nth, ps))
    decreases |ps|
  {
    if |ps| > 0 {
      var mid, axis := (|ps| - 1) / 2, LongestAxis(Bounds(ps));
      var o := nth(ps, mid, axis);
      NthFacts(nth, ps, mid, axis);
      BuildUnfold(nth, ps, mid, o);
      hide *;
      PartOn(s, ps, o, mid) by { NthMultiset(ps, mid, axis, o); }
      BuildOn(nth, o[..mid], s);
      BuildOn(nth, o[mid + 1..], s);
      JoinOn(s, o[mid], axis, BuildTree(nth, o[..mid]), BuildTree(nth, o[mid + 1..]));
    }
  }

  lemma NthMultiset(s: seq<Point>, k: nat, axis: int, o: seq<Point>)
    requires k < |s| && IsNth(s, k, axis, o)
    ensures multiset(o) == multiset(s) && |o| == |s|
  {
  }

  lemma JoinOn(s: Side, p: Point, axis: int, l: Tree, r: Tree)
    requires On(s, p) && AllOn(s, l) && AllOn(s, r)
    ensures AllOn(s, Update(NewNode(p, axis, l, r)))
  {
    hide On;
  }

  /** nth_element puts the pivot between the halves, so a built tree is in order throughout. */
  lemma {:induction false} BuildOrdered(nth: NthElement, ps: seq<Point>)
    requires NthOk(nth)
    ensures Ordered(BuildTree(nth, ps))
    decreases |ps|
  {
    if |ps| > 0 {
      var mid, axis := (|ps| - 1) / 2, LongestAxis(Bounds(ps));
      var o := nth(ps, mid, axis);
      NthFacts(nth, ps, mid, axis);
      BuildUnfold(nth, ps, mid, o);
      hide *;
      NthSides(ps, mid, axis, o);
      BuildOrdered(nth, o[..mid]);
      BuildOrdered(nth, o[mid + 1..]);
      BuildOn(nth, o[..mid], Side(axis, Coord(o[mid], axis), true));
      BuildOn(nth, o[mid + 1..], Side(axis, Coord(o[mid], axis), false));
      JoinOrdered(o[mid], axis, BuildTree(nth, o[..mid]), BuildTree(nth, o[mid + 1..]));
    }
  }

  lemma NthSides(s: seq<Point>, k: nat, axis: int, o: seq<Point>)
    requires k < |s| && IsNth(s, k, axis, o)
    ensures |o| == |s| && SeqOn(Side(axis, Coord(o[k], axis), true), o[..k])
    ensures SeqOn(Side(axis, Coord(o[k], axis), false), o[k + 1..])
  {
    forall p | p in multiset(o[..k]) ensures Coord(p, axis) <= Coord(o[k], axis) {
      var i :| 0 <= i < k && o[..k][i] == p;
    }
    forall p | p in multiset(o[k + 1..]) ensures Coord(o[k], axis) <= Coord(p, axis) {
      var i :| 0 <= i < |o| - k - 1 && o[k + 1..][i] == p;
      assert p == o[k + 1 + i];
    }
  }

  lemma JoinOrdered(p: Point, axis: int, l: Tree, r: Tree)
    requires Ordered(l) && Ordered(r)
    requires AllOn(Side(axis, Coord(p, axis), true), l) && AllOn(Side(axis, Coord(p, axis), false), r)
    ensures Ordered(Update(NewNode(p, axis, l, r)))
  {
    hide AllOn;
  }

  /** The axis of a build is the first of those on which the points extend farthest. */
  lemma AxisIsLongest(b: Box)
    ensures 0 <= LongestAxis(b) < 3
    ensures forall k :: 0 <= k < 3 ==> Extent(b, k) <= Extent(b, LongestAxis(b))
    ensures forall k :: 0 <= k < LongestAxis(b) ==> Extent(b, k) < Extent(b, LongestAxis(b))
  {
  }

  function Extent(b: Box, axis: int): real {
    if axis == 0 then b.x1 - b.x0 else if axis == 1 then b.y1 - b.y0 else b.z1 - b.z0
  }

  lemma SettleOn(cfg: Config, t: Tree, s: Side)
    requires NthOk(cfg.nth) && t.Node? && AllOn(s, t)
    ensures AllOn(s, Settle(cfg, t, true))
  {
    hide AllOn, Flatten, BuildTree, CriterionCheck, NthOk;
    FlattenOn(s, t);
    BuildOn(cfg.nth, Flatten(t), s);
  }

  lemma SettleOrdered(cfg: Config, t: Tree)
    requires NthOk(cfg.nth) && t.Node? && Ordered(t)
    ensures Ordered(Settle(cfg, t, true))
  {
    hide Ordered, Flatten, BuildTree, CriterionCheck, NthOk;
    BuildOrdered(cfg.nth, Flatten(t));
  }

  // ---------- the two mutators ----------

  /** What a new subtree needs to take the place of an old one: it is in order and leaves no
      half-space that held the old one and the points in m. */
  ghost predicate Fits(t: Tree, m: set<Point>, v: Tree) {
    Ordered(v) && forall s: Side :: AllOn(s, t) && (forall p :: p in m ==> On(s, p)) ==> AllOn(s, v)
  }

  lemma SettleFits(cfg: Config, t: Tree, m: set<Point>, v: Tree)
    requires NthOk(cfg.nth) && v.Node? && Fits(t, m, v)
    ensures Fits(t, m, Settle(cfg, v, true))
  {
    hide Ordered, AllOn, On, Settle, NthOk;
    SettleOrdered(cfg, v);
    forall s: Side | AllOn(s, t) && (forall p :: p in m ==> On(s, p)) ensures AllOn(s, Settle(cfg, v, true)) {
      SettleOn(cfg, v, s);
    }
  }

  /** A node with the same point and fitting children, whatever its flags and counters. */
  lemma NodeFits(u: Tree, ml: set<Point>, mr: set<Point>, v: Tree)
    requires u.Node? && v.Node? && Ordered(u) && v.point == u.point && v.axis == u.axis
    requires Fits(u.left, ml, v.left) && Fits(u.right, mr, v.right)
    requires forall p :: p in ml ==> On(Side(u.axis, Coord(u.point, u.axis), true), p)
    requires forall p :: p in mr ==> On(Side(u.axis, Coord(u.point, u.axis), false), p)
    ensures Fits(u, ml + mr, v)
  {
    hide On, Coord;
    forall s: Side | AllOn(s, u) && (forall p :: p in ml + mr ==> On(s, p)) ensures AllOn(s, v) {
      assert AllOn(s, u.left) && AllOn(s, u.right);
      assert forall p :: p in ml ==> On(s, p) by { forall p | p in ml ensures On(s, p) { assert p in ml + mr; } }
      assert forall p :: p in mr ==> On(s, p) by { forall p | p in mr ensures On(s, p) { assert p in ml + mr; } }
    }
  }

  lemma SameFits(t: Tree, u: Tree, m: set<Point>, v: Tree)
    requires Same(t, u) && Fits(u, m, v)
    ensures Fits(t, m, v)
  {
    hide AllOn, Ordered, On, Same;
    forall s: Side | AllOn(s, t) && (forall p :: p in m ==> On(s, p)) ensures AllOn(s, v) { SameOn(s, t, u); }
  }

  lemma FitsSelf(t: Tree)
    requires Ordered(t)
    ensures Fits(t, {}, t)
  {
  }

  lemma FitsMeans(t: Tree, m: set<Point>, v: Tree)
    requires Fits(t, m, v)
    ensures Ordered(v)
  {
  }

  lemma SameOrderFits(t: Tree, v: Tree)
    requires Same(t, v) && Ordered(t)
    ensures Fits(t, {}, v)
  {
    hide AllOn, Ordered, On, Same;
    SameOrdered(t, v);
    forall s: Side | AllOn(s, t) ensures AllOn(s, v) { SameOn(s, t, v); }
  }

  lemma OrderedParts(u: Tree)
    requires u.Node? && Ordered(u)
    ensures Ordered(u.left) && Ordered(u.right)
  {
  }

  lemma MarkSame(u: Tree, isDownsample: bool)
    requires u.Node?
    ensures Same(u, MarkDeleted(u, isDownsample))
  {
    SameSelf(u.left);
    SameSelf(u.right);
  }

  /** Deletion keeps the order, with or without rebuilds on the way. */
  lemma {:induction false} DeleteFits(cfg: Config, t: Tree, b: Box, isDownsample: bool)
    requires NthOk(cfg.nth) && Ordered(t)
    ensures Fits(t, {}, DeleteByRange(cfg, t, b, true, isDownsample).0)
    decreases Count(t), 1
  {
    if Alive(t) {
      DeleteLiveFits(cfg, t, b, isDownsample);
    } else {
      hide *;
      DeleteDead(cfg, t, b, isDownsample);
      FitsSelf(t);
    }
  }

  lemma DeleteDead(cfg: Config, t: Tree, b: Box, isDownsample: bool)
    requires NthOk(cfg.nth) && !Alive(t)
    ensures DeleteByRange(cfg, t, b, true, isDownsample).0 == t
  {
  }

  lemma {:induction false} DeleteLiveFits(cfg: Config, t: Tree, b: Box, isDownsample: bool)
    requires NthOk(cfg.nth) && Ordered(t) && Alive(t)
    ensures Fits(t, {}, DeleteByRange(cfg, t, b, true, isDownsample).0)
    decreases Count(t), 0
  {
    hide *;
    AliveNode(t);
    var u := PushDown(t);
    PushDownSame(t);
    SameOrdered(t, u);
    DeleteUnfold(cfg, t, b, true, isDownsample);
    MarkSame(u, isDownsample);
    OrderedParts(u);
    CountParts(t);
    SameOrderFits(u, u) by { SameSelf(u); }
    SameOrderFits(u, MarkDeleted(u, isDownsample));
    var d := DeleteByRange(cfg, t, b, true, isDownsample).0;
    if !Misses(b, u.range) && !Covers(b, u.range) {
      DeleteFits(cfg, u.left, b, isDownsample);
      DeleteFits(cfg, u.right, b, isDownsample);
      DeletePointFits(cfg, u, !u.pointDeleted && InBox(b, u.point), isDownsample,
        DeleteByRange(cfg, u.left, b, true, isDownsample).0, DeleteByRange(cfg, u.right, b, true, isDownsample).0);
    }
    SameFits(t, u, {}, d);
  }

  lemma DeletePointFits(cfg: Config, u: Tree, hit: bool, isDownsample: bool, l: Tree, r: Tree)
    requires NthOk(cfg.nth) && u.Node? && Ordered(u) && Fits(u.left, {}, l) && Fits(u.right, {}, r)
    ensures Fits(u, {}, Settle(cfg, DeletePoint(u, hit, isDownsample, l, r), true))
  {
    hide Ordered, Fits, Settle, NthOk, On;
    var v := DeletePoint(u, hit, isDownsample, l, r);
    var none: set<Point> := {};
    NodeFits(u, none, none, v);
    assert none + none == none;
    SettleFits(cfg, u, {}, v);
  }

  /** Insertion keeps the order: it goes left only if strictly smaller. */
  lemma {:induction false} AddFits(cfg: Config, t: Tree, p: Point, fatherAxis: int)
    requires NthOk(cfg.nth) && Inv(t) && Ordered(t)
    ensures Fits(t, {p}, AddByPoint(cfg, t, p, true, fatherAxis))
    decreases Count(t)
  {
    if t.Nil? {
      LeafFits(cfg, p, fatherAxis);
      return;
    }
    hide *;
    var u := PushDown(t);
    PushDownSame(t);
    SameOrdered(t, u);
    PushDownKeeps(t);
    Halves(t, u);
    OrderedParts(u);
    AddUnfold(cfg, t, p, true, fatherAxis);
    var isLeft := GoesLeft(u, p);
    var c := if isLeft then u.left else u.right;
    AddFits(cfg, c, p, u.axis);
    AddStepFits(cfg, u, p, AddByPoint(cfg, c, p, true, u.axis));
    SameFits(t, u, {p}, AddByPoint(cfg, t, p, true, fatherAxis));
  }

  lemma LeafFits(cfg: Config, p: Point, fatherAxis: int)
    requires NthOk(cfg.nth)
    ensures Fits(Nil, {p}, AddByPoint(cfg, Nil, p, true, fatherAxis))
  {
  }

  lemma AddStepFits(cfg: Config, u: Tree, p: Point, c: Tree)
    requires NthOk(cfg.nth) && u.Node? && Ordered(u) && 0 <= u.axis < 3
    requires Fits(if GoesLeft(u, p) then u.left else u.right, {p}, c)
    ensures Fits(u, {p}, Settle(cfg, Update(if GoesLeft(u, p) then u.(left := c) else u.(right := c)), true))
  {
    var v := Update(if GoesLeft(u, p) then u.(left := c) else u.(right := c));
    FitsSelf(u.left);
    FitsSelf(u.right);
    hide Ordered, Fits, Settle, NthOk;
    if GoesLeft(u, p) {
      NodeFits(u, {p}, {}, v);
      assert {p} + {} == {p};
    } else {
      NodeFits(u, {}, {p}, v);
      assert {} + {p} == {p};
    }
    SettleFits(cfg, u, {p}, v);
  }
}
